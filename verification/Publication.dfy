/** Publishing a complete score into the runtime profile: only what the score authorises changes, and everything is
    refused unless the score is complete, valid and consistent. */
module Publication {
  import opened GuardScoring
  import opened Options

  const SCORE_SCHEMA := "simllm-a100-nvlink-packet-hardware-score-v2"
  const FREEZE_SHA256 := "f0ab026e054873a56614af63ab3a7ae3219dc0b045423808cb41522910fa6da6"
  const PROTECTED_SHA256 := "899712c4734f7a6b410d80231291663a404511528d46aab7497b73831e0e354f"
  const PUBLISHED_STATUS := "scored_mixed_parameter_evidence"
  const PUBLISHED_EVIDENCE_CLASS := "parameter_specific_evidence_see_traf70_score"

  datatype BinaryAudit = SingleDigest | NoDigest | MultipleDigests

  datatype Score = Score(schema: string, status: Status, validity: Validity, freeze: string, protectedSha: string,
                         completedCells: nat, pendingIndices: seq<nat>, guards: Summary, binaries: BinaryAudit,
                         results: seq<ParameterResult>, patch: Patch)

  datatype Evidence = Evidence(status: ParameterStatus, value: Value, relation: Relation, rule: string)

  datatype Record = Record(scoreSha: string, protectedSha: string, runtime: seq<Change>, metadata: seq<Change>,
                           untouched: nat)

  type Sections = map<string, map<string, Value>>

  /** A profile: the runtime sections, the claims about them, and all other top-level fields. */
  datatype Profile = Profile(status: string, evidenceClass: string, sections: Sections, freeze: string,
                             evidence: map<Key, Evidence>, publication: Option<Record>, measurementClaim: Option<bool>,
                             envelope: Option<map<string, Value>>, other: map<string, Value>)

  const RUNTIME_KEYS: set<Key> := {
    ("tx", "max_payload_bytes"), ("tx", "header_bytes"), ("tx", "links_per_peer"),
    ("tx", "per_link_rate_bytes_per_second"), ("tx", "endpoint_egress_rate_bytes_per_second"), ("tx", "bond_policy"),
    ("tx", "credits_per_destination"), ("tx", "credit_unit_bytes"), ("rx", "ingress_rate_bytes_per_second"),
    ("rx", "buffer_capacity_bytes"), ("rx", "credit_return_latency_ps"), ("rx", "reassembly_policy"),
    ("rx", "delivery_order")}

  const DIRECTION_KEY: Key := ("tx", "request_response_direction")

  // ----- Refusals -----

  /** Every check of the score that must hold before anything is published. */
  predicate CompleteScore(s: Score) {
    && s.schema == SCORE_SCHEMA
    && s.status == CompleteValid
    && s.validity == ValidForFrozenRules
    && s.freeze == FREEZE_SHA256
    && s.protectedSha == PROTECTED_SHA256
    && s.completedCells == CELL_COUNT && s.pendingIndices == []
    && s.guards.pass && |s.guards.guards| == 10
    && (forall i :: 0 <= i < |s.guards.guards| ==> s.guards.guards[i].pass && s.guards.guards[i].decidable)
    && s.binaries == SingleDigest
    && (forall i :: 0 <= i < |s.results| ==>
          s.results[i].status == Identified || s.results[i].status == Inconclusive || s.results[i].status == Structural)
  }

  predicate PreScoreCandidate(p: Profile, sha: string) {
    && sha == PROTECTED_SHA256
    && p.status == "candidate"
    && p.evidenceClass == "declared_candidate_not_hardware_measurement"
  }

  predicate Has(sections: Sections, key: Key) { key.0 in sections && key.1 in sections[key.0] }

  /** A change that has a place to go. */
  predicate Publishable(sections: Sections, c: Change) {
    (c.key in RUNTIME_KEYS && Has(sections, c.key)) || (c.key == DIRECTION_KEY && c.relation == Confirmed)
  }

  // ----- Applying the authorised changes -----

  function Set(sections: Sections, key: Key, v: Value): Sections
    requires key.0 in sections
  {
    sections[key.0 := sections[key.0][key.1 := v]]
  }

  /** The sections after the runtime changes, in order. */
  function Applied(sections: Sections, changes: seq<Change>): Sections {
    if changes == [] then sections
    else
      var k := |changes| - 1;
      var before := Applied(sections, changes[..k]);
      var c := changes[k];
      if c.key in RUNTIME_KEYS && c.key.0 in before then Set(before, c.key, c.value) else before
  }

  function Runtime(changes: seq<Change>): seq<Change> {
    if changes == [] then []
    else
      var k := |changes| - 1;
      Runtime(changes[..k]) + if changes[k].key in RUNTIME_KEYS then [changes[k]] else []
  }

  function Metadata(changes: seq<Change>): seq<Change> {
    if changes == [] then []
    else
      var k := |changes| - 1;
      Metadata(changes[..k]) + if changes[k].key in RUNTIME_KEYS then [] else [changes[k]]
  }

  function EvidenceFor(r: ParameterResult): Evidence {
    Evidence(r.status, if r.status == Identified || r.status == Structural then r.value else r.candidate,
             r.relation, r.rule)
  }

  function EvidenceOf(results: seq<ParameterResult>): map<Key, Evidence> {
    if results == [] then map[]
    else
      var k := |results| - 1;
      EvidenceOf(results[..k])[results[k].key := EvidenceFor(results[k])]
  }

  /** The profile just before the derived envelope fields are refreshed. */
  function Scored(s: Score, p: Profile, scoreSha: string, profileSha: string): Profile {
    var changes := Changes(s.results);
    p.(status := PUBLISHED_STATUS,
       evidenceClass := PUBLISHED_EVIDENCE_CLASS,
       sections := Applied(p.sections, changes),
       freeze := FREEZE_SHA256,
       evidence := EvidenceOf(s.results),
       publication := Some(Record(scoreSha, profileSha, Runtime(changes), Metadata(changes),
                                  PatchOf(s.results).untouched)),
       measurementClaim := if p.measurementClaim.Some? then Some(changes != []) else None)
  }

  /** Publication succeeds exactly on these inputs. */
  ghost predicate Accepts(s: Score, p: Profile, scoreSha: string, profileSha: string,
                          refresh: Profile -> Option<map<string, Value>>) {
    && CompleteScore(s)
    && PreScoreCandidate(p, profileSha)
    && s.patch == PatchOf(s.results)
    && (forall c :: c in Changes(s.results) ==> Publishable(p.sections, c))
    && p.envelope.Some?
    && refresh(Scored(s, p, scoreSha, profileSha)).Some?
  }

  /** The checks of the score, in order; each one refuses. */
  method ValidateCompleteScore(s: Score) returns (ok: bool)
    ensures ok <==> CompleteScore(s)
  {
    if s.schema != SCORE_SCHEMA {
      return false;
    }
    if s.status != CompleteValid {
      return false;
    }
    if s.validity != ValidForFrozenRules {
      return false;
    }
    if s.freeze != FREEZE_SHA256 {
      return false;
    }
    if s.protectedSha != PROTECTED_SHA256 {
      return false;
    }
    if s.completedCells != 86 || s.pendingIndices != [] {
      return false;
    }
    if !s.guards.pass || |s.guards.guards| != 10 {
      return false;
    }
    for i := 0 to |s.guards.guards|
      invariant forall j :: 0 <= j < i ==> s.guards.guards[j].pass && s.guards.guards[j].decidable
    {
      if !s.guards.guards[i].pass || !s.guards.guards[i].decidable {
        return false;
      }
    }
    if !s.binaries.SingleDigest? {
      return false;
    }
    for i := 0 to |s.results|
      invariant forall j :: 0 <= j < i ==> !s.results[j].status.Pending? && !s.results[j].status.VoidFatalGuard?
    {
      if s.results[i].status.Pending? || s.results[i].status.VoidFatalGuard? {
        return false;
      }
    }
    return true;
  }

  /** `refresh` stands for the envelope comparison of the simulator; it may fail, and only its own fields are merged. */
  method BuildPublishedProfile(s: Score, p: Profile, scoreSha: string, profileSha: string,
                               refresh: Profile -> Option<map<string, Value>>)
    returns (r: Option<Profile>)
    ensures r.Some? <==> Accepts(s, p, scoreSha, profileSha, refresh)
    ensures r.Some? ==>
              var scored := Scored(s, p, scoreSha, profileSha);
              r.value == scored.(envelope := Some(p.envelope.value + refresh(scored).value))
  {
    hide Applied, Runtime, Metadata, Changes, CompleteScore, RUNTIME_KEYS;
    var complete := ValidateCompleteScore(s);
    if !complete {
      return None;
    }
    if profileSha != PROTECTED_SHA256 {
      return None;
    }
    if p.status != "candidate" {
      return None;
    }
    if p.evidenceClass != "declared_candidate_not_hardware_measurement" {
      return None;
    }
    var patch := ProfilePatchFromResults(s.results);
    if s.patch != patch {
      return None;
    }
    var evidence := map[];
    for i := 0 to |s.results|
      invariant evidence == EvidenceOf(s.results[..i])
    {
      assert s.results[..i + 1][..i] == s.results[..i];
      evidence := evidence[s.results[i].key := EvidenceFor(s.results[i])];
    }
    assert s.results[..|s.results|] == s.results;
    var applied := ApplyChanges(p.sections, patch.changes);
    if applied.None? {
      return None;
    }
    var (sections, runtime, metadata) := applied.value;
    var published := p.(status := PUBLISHED_STATUS, evidenceClass := PUBLISHED_EVIDENCE_CLASS, sections := sections,
                        freeze := FREEZE_SHA256, evidence := evidence,
                        publication := Some(Record(scoreSha, profileSha, runtime, metadata, patch.untouched)),
                        measurementClaim := if p.measurementClaim.Some? then Some(patch.changes != []) else None);
    assert published == Scored(s, p, scoreSha, profileSha);
    if published.envelope.None? {
      return None;
    }
    var derived := refresh(published);
    if derived.None? {
      return None;
    }
    r := Some(published.(envelope := Some(published.envelope.value + derived.value)));
  }

  /** The loop over the authorised changes: it stops at the first one that has no place to go. */
  method ApplyChanges(sections: Sections, changes: seq<Change>)
    returns (r: Option<(Sections, seq<Change>, seq<Change>)>)
    ensures r.Some? <==> forall c :: c in changes ==> Publishable(sections, c)
    ensures r.Some? ==> r.value == (Applied(sections, changes), Runtime(changes), Metadata(changes))
  {
    hide RUNTIME_KEYS;
    var now, runtime, metadata := sections, [], [];
    for i := 0 to |changes|
      invariant now == Applied(sections, changes[..i])
      invariant runtime == Runtime(changes[..i]) && metadata == Metadata(changes[..i])
      invariant forall c :: c in changes[..i] ==> Publishable(sections, c)
    {
      var c := changes[i];
      assert c in changes;
      assert changes[..i + 1][..i] == changes[..i];
      assert changes[..i + 1] == changes[..i] + [c];
      SameShape(sections, changes[..i]);
      if c.key in RUNTIME_KEYS {
        if !Has(now, c.key) {
          RuntimeIsNotDirection(c.key);
          return None;
        }
        now := Set(now, c.key, c.value);
        runtime := runtime + [c];
      } else if c.key == DIRECTION_KEY {
        if c.relation != Confirmed {
          return None;
        }
        metadata := metadata + [c];
      } else {
        return None;
      }
    }
    assert changes[..|changes|] == changes;
    r := Some((now, runtime, metadata));
  }

  lemma {:induction false} RuntimeIsNotDirection(key: Key)
    requires key in RUNTIME_KEYS
    ensures key != DIRECTION_KEY
  {
  }

  // ----- The frame of a publication -----

  ghost predicate SameKeys(a: Sections, b: Sections) {
    a.Keys == b.Keys && forall m :: m in a ==> a[m].Keys == b[m].Keys
  }

  /** Applying changes to existing fields never adds or removes a field. */
  lemma {:induction false} SameShape(sections: Sections, changes: seq<Change>)
    requires forall c :: c in changes ==> Publishable(sections, c)
    ensures SameKeys(sections, Applied(sections, changes))
  {
    hide RUNTIME_KEYS;
    if changes != [] {
      var k := |changes| - 1;
      assert changes == changes[..k] + [changes[k]];
      SameShape(sections, changes[..k]);
      assert changes[k] in changes;
      if changes[k].key in RUNTIME_KEYS {
        RuntimeIsNotDirection(changes[k].key);
      }
    }
  }

  ghost predicate DistinctKeys(results: seq<ParameterResult>) {
    forall i, j :: 0 <= i < j < |results| ==> results[i].key != results[j].key
  }

  ghost predicate LastFor(changes: seq<Change>, i: nat, key: Key)
    requires i < |changes|
  {
    changes[i].key == key && forall j :: i < j < |changes| ==> changes[j].key != key
  }

  /** One field after the changes: the value of the last runtime change for it, or the old one. */
  lemma {:induction false} FieldAfter(sections: Sections, changes: seq<Change>, key: Key)
    requires forall c :: c in changes ==> Publishable(sections, c)
    requires Has(sections, key)
    ensures Has(Applied(sections, changes), key)
    ensures (forall c :: c in changes && c.key == key ==> c.key !in RUNTIME_KEYS) ==>
              Applied(sections, changes)[key.0][key.1] == sections[key.0][key.1]
    ensures forall i :: 0 <= i < |changes| && LastFor(changes, i, key) && key in RUNTIME_KEYS ==>
              Applied(sections, changes)[key.0][key.1] == changes[i].value
  {
    hide RUNTIME_KEYS;
    SameShape(sections, changes);
    if changes != [] {
      var k := |changes| - 1;
      var front := changes[..k];
      assert changes == front + [changes[k]];
      FieldAfter(sections, front, key);
      SameShape(sections, front);
      assert changes[k] in changes;
      if changes[k].key in RUNTIME_KEYS {
        RuntimeIsNotDirection(changes[k].key);
      }
      forall i | 0 <= i < |changes| && LastFor(changes, i, key) && key in RUNTIME_KEYS
        ensures Applied(sections, changes)[key.0][key.1] == changes[i].value
      {
        if i < k {
          assert front[i] == changes[i];
          assert forall j :: i < j < k ==> front[j] == changes[j];
          assert changes[k].key != key;
        }
      }
    }
  }

  lemma {:induction false} ChangesKeepOrder(results: seq<ParameterResult>, i: nat) returns (at: nat)
    requires DistinctKeys(results) && i < |results| && Authorized(results[i])
    ensures at < |Changes(results)| && Changes(results)[at] == ChangeOf(results[i])
    ensures forall j :: 0 <= j < |Changes(results)| && j != at ==> Changes(results)[j].key != results[i].key
  {
    var changes := Changes(results);
    ChangesMeaning(results, ChangeOf(results[i]));
    at :| 0 <= at < |changes| && changes[at] == ChangeOf(results[i]);
    OneChangePerKey(results);
  }

  lemma {:induction false} OneChangePerKey(results: seq<ParameterResult>)
    requires DistinctKeys(results)
    ensures forall i, j :: 0 <= i < j < |Changes(results)| ==> Changes(results)[i].key != Changes(results)[j].key
  {
    if results != [] {
      var k := |results| - 1;
      var front := Changes(results[..k]);
      OneChangePerKey(results[..k]);
      forall i | 0 <= i < |front|
        ensures front[i].key != results[k].key
      {
        ChangesMeaning(results[..k], front[i]);
        var m :| 0 <= m < k && Authorized(results[..k][m]) && ChangeOf(results[..k][m]) == front[i];
        assert results[m] == results[..k][m];
      }
    }
  }

  /** Frame: after an accepted publication every runtime parameter with an authorised result has the identified value,
      every other field of every section has its old value, and no field appears or disappears. */
  lemma {:induction false} PublicationFrame(s: Score, p: Profile, scoreSha: string, profileSha: string,
                                           refresh: Profile -> Option<map<string, Value>>, key: Key)
    requires Accepts(s, p, scoreSha, profileSha, refresh) && DistinctKeys(s.results)
    requires Has(p.sections, key)
    ensures var published := Scored(s, p, scoreSha, profileSha);
            && SameKeys(p.sections, published.sections)
            && published.other == p.other
            && (forall i :: 0 <= i < |s.results| && s.results[i].key == key && key in RUNTIME_KEYS
                            && Authorized(s.results[i]) ==>
                  published.sections[key.0][key.1] == s.results[i].value)
            && ((forall i :: 0 <= i < |s.results| && s.results[i].key == key && key in RUNTIME_KEYS ==>
                               !Authorized(s.results[i])) ==>
                  published.sections[key.0][key.1] == p.sections[key.0][key.1])
  {
    hide RUNTIME_KEYS, Applied, CompleteScore, Authorized, Changes;
    var changes := Changes(s.results);
    SameShape(p.sections, changes);
    FieldAfter(p.sections, changes, key);
    forall i | 0 <= i < |s.results| && s.results[i].key == key && key in RUNTIME_KEYS && Authorized(s.results[i])
      ensures Applied(p.sections, changes)[key.0][key.1] == s.results[i].value
    {
      var at := ChangesKeepOrder(s.results, i);
    }
    if forall i :: 0 <= i < |s.results| && s.results[i].key == key && key in RUNTIME_KEYS ==>
                     !Authorized(s.results[i]) {
      forall c | c in changes && c.key == key
        ensures c.key !in RUNTIME_KEYS
      {
        ChangesMeaning(s.results, c);
      }
    }
  }

  lemma {:induction false} RuntimePlusMetadata(changes: seq<Change>)
    ensures |Runtime(changes)| + |Metadata(changes)| == |changes|
  {
    hide RUNTIME_KEYS;
    if changes != [] {
      RuntimePlusMetadata(changes[..|changes| - 1]);
    }
  }

  /** Nothing is lost in the books: runtime changes, metadata-only changes and unchanged parameters add up. */
  lemma {:induction false} PublicationAddsUp(s: Score, p: Profile, scoreSha: string, profileSha: string)
    ensures var record := Scored(s, p, scoreSha, profileSha).publication.value;
            |record.runtime| + |record.metadata| + record.untouched == |s.results|
  {
    hide Runtime, Metadata, Changes, Applied;
    RuntimePlusMetadata(Changes(s.results));
  }

  /** The published record lists every change once, by where it goes. */
  lemma {:induction false} ChangesAreSplit(changes: seq<Change>, c: Change)
    ensures c in Runtime(changes) <==> c in changes && c.key in RUNTIME_KEYS
    ensures c in Metadata(changes) <==> c in changes && c.key !in RUNTIME_KEYS
  {
    hide RUNTIME_KEYS;
    if changes != [] {
      var k := |changes| - 1;
      ChangesAreSplit(changes[..k], c);
      assert changes == changes[..k] + [changes[k]];
    }
  }

  /** A profile that makes a measurement claim claims one exactly when some result was authorised. */
  lemma {:induction false} ClaimMeaning(s: Score, p: Profile, scoreSha: string, profileSha: string)
    ensures var claim := Scored(s, p, scoreSha, profileSha).measurementClaim;
            && (claim.Some? <==> p.measurementClaim.Some?)
            && (claim.Some? ==> (claim.value <==> exists i :: 0 <= i < |s.results| && Authorized(s.results[i])))
  {
    hide Changes, Authorized, Applied, Runtime, Metadata, EvidenceOf;
    if i :| 0 <= i < |s.results| && Authorized(s.results[i]) {
      ChangesMeaning(s.results, ChangeOf(s.results[i]));
    }
    if Changes(s.results) != [] {
      var c := Changes(s.results)[0];
      assert c in Changes(s.results);
      ChangesMeaning(s.results, c);
    }
  }

  lemma {:induction false} EvidenceMeaning(results: seq<ParameterResult>, i: nat)
    requires DistinctKeys(results) && i < |results|
    ensures results[i].key in EvidenceOf(results) && EvidenceOf(results)[results[i].key] == EvidenceFor(results[i])
  {
    var k := |results| - 1;
    if i < k {
      assert results[..k][i] == results[i];
      EvidenceMeaning(results[..k], i);
    }
  }

  /** Evidence states the measured or structural value, and otherwise the declared candidate. */
  lemma {:induction false} EvidenceValue(r: ParameterResult)
    ensures r.status.Identified? || r.status.Structural? ==> EvidenceFor(r).value == r.value
    ensures r.status.Inconclusive? || r.status.Pending? || r.status.VoidFatalGuard? ==>
              EvidenceFor(r).value == r.candidate
  {
  }

  /** The profile and its evidence agree: if the score was taken against this profile's own values, every runtime
      parameter is published with exactly the value its evidence states. */
  lemma {:induction false} EvidenceMatchesProfile(s: Score, p: Profile, scoreSha: string, profileSha: string,
                                                 refresh: Profile -> Option<map<string, Value>>, i: nat)
    requires Accepts(s, p, scoreSha, profileSha, refresh) && DistinctKeys(s.results) && i < |s.results|
    requires s.results[i].key in RUNTIME_KEYS && Has(p.sections, s.results[i].key)
    requires s.results[i].candidate == p.sections[s.results[i].key.0][s.results[i].key.1]
    requires s.results[i].status == Identified ==> Authorized(s.results[i])
    requires s.results[i].status == Structural ==> s.results[i].value == s.results[i].candidate
    ensures var published, key := Scored(s, p, scoreSha, profileSha), s.results[i].key;
            && Has(published.sections, key) && key in published.evidence
            && published.sections[key.0][key.1] == published.evidence[key].value
            && published.evidence[key].status == s.results[i].status
            && published.evidence[key].relation == s.results[i].relation
            && published.evidence[key].rule == s.results[i].rule
  {
    hide RUNTIME_KEYS, Applied, CompleteScore, Changes, EvidenceOf;
    var key := s.results[i].key;
    PublicationFrame(s, p, scoreSha, profileSha, refresh, key);
    EvidenceMeaning(s.results, i);
    SameShape(p.sections, Changes(s.results));
  }

  // ----- From guards to publication -----

  /** The score the audit writes for the given observations. */
  ghost predicate IsAuditOf(s: Score, completed: nat, rows: seq<GuardScoring.Record>, cells: seq<GuardScoring.Record>,
                            candidate: map<Key, Value>, outcomes: map<Key, Outcome>) {
    var summary := SummaryOf(rows, cells);
    && s.status == StatusOf(completed, summary)
    && s.validity == ValidityOf(completed, summary)
    && s.guards == summary
    && s.results == ScoreParameters(candidate, completed == CELL_COUNT, MeasurementValid(completed, summary), outcomes)
    && s.patch == PatchOf(s.results)
  }

  /** If a cell is missing, or any guard was unobserved, undecidable or failed on any row or cell, then nothing is
      identified, the patch is empty, and publication refuses whatever profile it is given. */
  lemma {:induction false} BadGuardBlocksPublication(s: Score, completed: nat, rows: seq<GuardScoring.Record>,
                                                     cells: seq<GuardScoring.Record>, candidate: map<Key, Value>,
                                                     outcomes: map<Key, Outcome>, p: Profile, scoreSha: string,
                                                     profileSha: string,
                                                     refresh: Profile -> Option<map<string, Value>>)
    requires IsAuditOf(s, completed, rows, cells, candidate, outcomes)
    requires completed != CELL_COUNT || !AllGuardsHold(rows + cells)
    ensures forall i :: 0 <= i < |s.results| ==> s.results[i].status != Identified
    ensures s.patch.changes == []
    ensures !Accepts(s, p, scoreSha, profileSha, refresh)
  {
    hide SummaryOf, AllGuardsHold, ScoreParameters, StatusOf, ValidityOf, PatchOf;
    var summary := SummaryOf(rows, cells);
    CompleteValidExactlyWhenGuardsHold(completed, rows, cells);
    InvalidMeansNothingIdentified(candidate, completed == CELL_COUNT, MeasurementValid(completed, summary),
                                  outcomes, outcomes);
  }

  /** Results of the audit: IDENTIFIED in a runtime section always means authorised, so nothing identified is
      dropped. */
  lemma {:induction false} AuditAuthorizesAllIdentified(candidate: map<Key, Value>, outcomes: map<Key, Outcome>, i: nat)
    requires i < |KEYS|
    ensures var r := ScoreParameters(candidate, true, true, outcomes)[i];
            r.status == Identified && (r.key.0 == "tx" || r.key.0 == "rx") <==> Authorized(r)
    ensures DistinctKeys(ScoreParameters(candidate, true, true, outcomes))
  {
    hide KEYS, IdentifiedRelation, SpecAt;
    var results := ScoreParameters(candidate, true, true, outcomes);
    forall m, n | 0 <= m < n < |results|
      ensures results[m].key != results[n].key
    {
      SpecKey(candidate, m);
      SpecKey(candidate, n);
      KeysDistinct(m, n);
    }
    assert results[i] == ScoreOne(SpecAt(candidate, i), true, true, outcomes);
  }

  lemma {:induction false} SpecKey(candidate: map<Key, Value>, i: nat)
    requires i < |KEYS|
    ensures SpecAt(candidate, i).key == KEYS[i].0
  {
  }

  lemma {:induction false} KeysDistinct(m: nat, n: nat)
    requires m < n < |KEYS|
    ensures KEYS[m].0 != KEYS[n].0
  {
  }
}
