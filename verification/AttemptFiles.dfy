/** One attempt directory of the packet study: the eleven write-once files, the manifest and COMPLETE marker, the
    digest audit of the runner and the inventory check of the scorer.  Texts are strings; JSON and SHA-256 enter as a
    codec of which three facts are used: an object is written with a final newline and parses back with or without it,
    nothing shorter parses, and the digest is injective. */
module AttemptFiles {
  import opened Options

  /** A directory: file name to text. */
  type Dir = map<string, string>

  datatype Payload = Payload(path: string, bytes: nat, sha256: string)

  datatype Plan = Plan(cellId: string, mode: string, implementation: string, candidate: string, binary: string,
                       expectedHead: Option<string>)

  datatype Doc =
    | PlanDoc(plan: Plan)
    | ManifestDoc(cellId: string, freeze: string, payloads: seq<Payload>)
    | CompleteDoc(status: string, cellId: string, manifestSha256: string)
    | OtherDoc(kind: string)

  datatype Codec = Codec(parse: string -> Option<Doc>, render: Doc -> string, hash: string -> string)

  /** The text of a JSON object: closed only by its last brace, then a newline. */
  ghost predicate ObjectText(k: Codec, d: Doc) {
    var text := k.render(d);
    && text != "" && text[|text| - 1] == '\n'
    && k.parse(text) == Some(d) && k.parse(text[..|text| - 1]) == Some(d)
    && forall i :: 0 <= i < |text| - 1 ==> k.parse(text[..i]).None?
  }

  ghost predicate Faithful(k: Codec) {
    && (forall d: Doc :: ObjectText(k, d))
    && (forall x: string, y: string :: k.hash(x) == k.hash(y) ==> x == y)
  }

  /** The command line of one run, with the digests it is compared by. */
  datatype Args = Args(mode: string, binary: string, expectedHead: string, freeze: string,
                       implementation: string, candidate: string)

  /** A full lower-case Git hash. */
  predicate IsHead(s: string) {
    |s| == 40 && forall i :: 0 <= i < 40 ==> '0' <= s[i] <= '9' || 'a' <= s[i] <= 'f'
  }

  /** Digits and the letters a to f, by their codes. */
  predicate LowerHex(c: char) { 48 <= c as int <= 57 || 97 <= c as int <= 102 }

  lemma {:induction false} HeadMeaning(s: string)
    ensures IsHead(s) <==> |s| == 40 && forall i :: 0 <= i < 40 ==> LowerHex(s[i])
  {
  }

  function PlanOf(cell: string, a: Args): Plan {
    Plan(cell, a.mode, a.implementation, a.candidate, a.binary,
         if a.expectedHead == "" then None else Some(a.expectedHead))
  }

  // ----- The digest audit -----

  function PayloadsOf(d: Doc): seq<Payload> { if d.ManifestDoc? then d.payloads else [] }

  predicate PayloadIntact(k: Codec, dir: Dir, p: Payload) {
    p.path in dir && |dir[p.path]| == p.bytes && k.hash(dir[p.path]) == p.sha256
  }

  predicate Verify(k: Codec, dir: Dir) {
    && "manifest.json" in dir && "COMPLETE.json" in dir
    && var manifest, complete := k.parse(dir["manifest.json"]), k.parse(dir["COMPLETE.json"]);
       && manifest.Some? && complete.Some?
       && complete.value.CompleteDoc? && complete.value.manifestSha256 == k.hash(dir["manifest.json"])
       && forall p :: p in PayloadsOf(manifest.value) ==> PayloadIntact(k, dir, p)
  }

  function PlanIn(k: Codec, dir: Dir): Option<Plan> {
    if "plan.json" !in dir then None
    else match k.parse(dir["plan.json"])
         case Some(PlanDoc(plan)) => Some(plan)
         case _ => None
  }

  /** The comparisons shared by resuming and by the pending list. */
  predicate SameInputs(plan: Plan, a: Args) {
    && plan.implementation == a.implementation
    && plan.candidate == a.candidate
    && (a.expectedHead == "" || plan.expectedHead == Some(a.expectedHead))
  }

  /** Resuming skips a cell for an attempt like this one. */
  predicate Matches(k: Codec, dir: Dir, a: Args) {
    var plan := PlanIn(k, dir);
    plan.Some? && SameInputs(plan.value, a) && plan.value.binary == a.binary
  }

  /** The pending list drops a cell for an attempt like this one. */
  predicate CountsAsDone(k: Codec, dir: Dir, a: Args) {
    var plan := PlanIn(k, dir);
    plan.Some? && SameInputs(plan.value, a) && plan.value.mode == "hardware"
  }

  // ----- What an attempt writes, in order -----

  /** Names in creation order; the results file is written by the child process. */
  const PAYLOAD_NAMES: seq<string> := [
    "plan.json", "points.tsv", "environment.json", "guards_before.txt", "results.jsonl",
    "stdout.txt", "stderr.txt", "summary.json", "guards_after.txt"]

  /** Everything the environment decides about one attempt: the arguments, the texts of the other eight payloads and
      the order in which the directory is listed for the manifest. */
  datatype Recipe = Recipe(cell: string, args: Args, texts: seq<string>, listing: seq<string>)

  ghost predicate ValidRecipe(r: Recipe) {
    && |r.texts| == 8
    && |r.listing| == 9
    && (forall i, j :: 0 <= i < j < 9 ==> r.listing[i] != r.listing[j])
    && (forall n :: n in r.listing <==> n in PAYLOAD_NAMES)
  }

  function NameAt(i: nat): string
    requires i < 11
  {
    if i < 9 then PAYLOAD_NAMES[i] else if i == 9 then "manifest.json" else "COMPLETE.json"
  }

  function PayloadText(k: Codec, r: Recipe, i: nat): string
    requires |r.texts| == 8 && i < 9
  {
    if i == 0 then k.render(PlanDoc(PlanOf(r.cell, r.args))) else r.texts[i - 1]
  }

  /** The directory after the nine payloads. */
  function PayloadDir(k: Codec, r: Recipe, i: nat): Dir
    requires |r.texts| == 8 && i <= 9
  {
    if i == 0 then map[] else PayloadDir(k, r, i - 1)[NameAt(i - 1) := PayloadText(k, r, i - 1)]
  }

  /** Manifest entries for the listed files, as the manifest loop builds them. */
  function Records(k: Codec, dir: Dir, listing: seq<string>): seq<Payload>
    requires forall n :: n in listing ==> n in dir
  {
    seq(|listing|, i requires 0 <= i < |listing| =>
      assert listing[i] in listing;
      Payload(listing[i], |dir[listing[i]]|, k.hash(dir[listing[i]])))
  }

  function TextAt(k: Codec, r: Recipe, i: nat): string
    requires ValidRecipe(r) && i < 11
  {
    if i < 9 then PayloadText(k, r, i)
    else
      PayloadKeys(k, r, 9);
      assert PAYLOAD_NAMES[..9] == PAYLOAD_NAMES;
      var manifest := k.render(ManifestDoc(r.cell, r.args.freeze, Records(k, PayloadDir(k, r, 9), r.listing)));
      if i == 9 then manifest else k.render(CompleteDoc("complete", r.cell, k.hash(manifest)))
  }

  /** The directory after `i` completed writes. */
  ghost function DirAfter(k: Codec, r: Recipe, i: nat): Dir
    requires ValidRecipe(r) && i <= 11
  {
    if i == 0 then map[] else DirAfter(k, r, i - 1)[NameAt(i - 1) := TextAt(k, r, i - 1)]
  }

  lemma {:induction false} NamesDistinct(i: nat, j: nat)
    requires i < j < 11
    ensures NameAt(i) != NameAt(j)
    ensures NameAt(i) != "STOPPED.json" && NameAt(j) != "STOPPED.json"
  {
    assert "manifest.json" !in PAYLOAD_NAMES && "COMPLETE.json" !in PAYLOAD_NAMES && "STOPPED.json" !in PAYLOAD_NAMES;
    if j < 9 {
      PayloadNamesDistinct(i, j);
    }
  }

  lemma {:induction false} PayloadNamesDistinct(i: nat, j: nat)
    requires i < j < 9
    ensures PAYLOAD_NAMES[i] != PAYLOAD_NAMES[j]
  {
    var n := PAYLOAD_NAMES;
    assert n[0][1] == 'l' && n[1][1] == 'o' && n[2][1] == 'n' && n[3][1] == 'u' && n[4][1] == 'e'
        && n[5][1] == 't' && n[6][1] == 't' && n[7][1] == 'u' && n[8][1] == 'u';
    assert n[3][0] == 'g' && n[7][0] == 's' && n[8][0] == 'g';
    assert n[3][7] == 'b' && n[8][7] == 'a' && n[5][3] == 'o' && n[6][3] == 'e';
  }

  lemma {:induction false} PayloadKeys(k: Codec, r: Recipe, i: nat)
    requires |r.texts| == 8 && i <= 9
    ensures forall n :: n in PayloadDir(k, r, i) <==> n in PAYLOAD_NAMES[..i]
  {
    if i > 0 {
      PayloadKeys(k, r, i - 1);
      assert PAYLOAD_NAMES[..i] == PAYLOAD_NAMES[..i - 1] + [PAYLOAD_NAMES[i - 1]];
    }
  }

  lemma {:induction false} PayloadDirIsDirAfter(k: Codec, r: Recipe, i: nat)
    requires ValidRecipe(r) && i <= 9
    ensures PayloadDir(k, r, i) == DirAfter(k, r, i)
  {
    if i > 0 {
      PayloadDirIsDirAfter(k, r, i - 1);
    }
  }

  /** Exactly the first `i` files are there, each with the text it was created with. */
  lemma {:induction false} FilesAfter(k: Codec, r: Recipe, i: nat)
    requires ValidRecipe(r) && i <= 11
    ensures forall j :: 0 <= j < i ==> NameAt(j) in DirAfter(k, r, i) && DirAfter(k, r, i)[NameAt(j)] == TextAt(k, r, j)
    ensures forall n :: n in DirAfter(k, r, i) ==> exists j :: 0 <= j < i && NameAt(j) == n
  {
    hide TextAt, NameAt;
    if i > 0 {
      FilesAfter(k, r, i - 1);
      forall j | 0 <= j < i
        ensures NameAt(j) in DirAfter(k, r, i) && DirAfter(k, r, i)[NameAt(j)] == TextAt(k, r, j)
      {
        if j < i - 1 {
          NamesDistinct(j, i - 1);
        }
      }
    }
  }

  lemma {:induction false} NotYetThere(k: Codec, r: Recipe, i: nat, j: nat)
    requires ValidRecipe(r) && i <= j < 11
    ensures NameAt(j) !in DirAfter(k, r, i)
    ensures "STOPPED.json" !in DirAfter(k, r, i)
  {
    hide NameAt, DirAfter;
    FilesAfter(k, r, i);
    forall n | n in DirAfter(k, r, i)
      ensures n != NameAt(j) && n != "STOPPED.json"
    {
      var m :| 0 <= m < i && NameAt(m) == n;
      NamesDistinct(m, j);
    }
  }

  // ----- Attempts that may have been interrupted -----

  /** How far an attempt got: completed writes, a possibly torn next file, the output files of a producer that made no
      results file, a possible stop record. */
  datatype History = History(recipe: Recipe, written: nat, torn: Option<nat>, outputs: seq<string>,
                             stopped: Option<string>)

  function SoFar(r: Recipe, written: nat): History { History(r, written, None, [], None) }

  /** A cut leaves these texts: of the torn file a proper prefix, of the outputs anything, and outputs only while the
      results file is missing. */
  ghost predicate ValidCut(k: Codec, r: Recipe, written: nat, torn: Option<nat>, outputs: seq<string>)
    requires ValidRecipe(r)
  {
    && written <= 11
    && (torn.Some? ==> written < 11 && torn.value < |TextAt(k, r, written)|)
    && |outputs| <= 2 && (outputs != [] ==> written == 4 && torn.None?)
  }

  ghost predicate ValidHistory(k: Codec, h: History) {
    ValidRecipe(h.recipe) && ValidCut(k, h.recipe, h.written, h.torn, h.outputs)
  }

  /** The captured standard output, then the captured standard error. */
  function WithOutputs(dir: Dir, outputs: seq<string>): Dir {
    var first := if outputs == [] then dir else dir["stdout.txt" := outputs[0]];
    if |outputs| < 2 then first else first["stderr.txt" := outputs[1]]
  }

  ghost function TornDir(k: Codec, h: History): Dir
    requires ValidHistory(k, h)
  {
    var dir := DirAfter(k, h.recipe, h.written);
    if h.torn.Some? then dir[NameAt(h.written) := TextAt(k, h.recipe, h.written)[..h.torn.value]] else dir
  }

  ghost function DirOf(k: Codec, h: History): Dir
    requires ValidHistory(k, h)
  {
    var dir := WithOutputs(TornDir(k, h), h.outputs);
    if h.stopped.Some? then dir["STOPPED.json" := h.stopped.value] else dir
  }

  /** The COMPLETE marker is there, up to its final newline. */
  ghost predicate MarkerWritten(k: Codec, h: History)
    requires ValidHistory(k, h)
  {
    || h.written == 11
    || (h.written == 10 && h.torn.Some? && h.torn.value + 1 == |TextAt(k, h.recipe, 10)|)
  }

  lemma {:induction false} FilesOf(k: Codec, h: History)
    requires ValidHistory(k, h)
    ensures forall j :: 0 <= j < h.written ==>
              NameAt(j) in DirOf(k, h) && DirOf(k, h)[NameAt(j)] == TextAt(k, h.recipe, j)
    ensures forall j :: h.written < j < 11 && NameAt(j) in DirOf(k, h) ==> h.written == 4 && j < 7
    ensures h.written < 11 ==> (NameAt(h.written) in DirOf(k, h) <==> h.torn.Some?)
    ensures h.torn.Some? ==>
              DirOf(k, h)[NameAt(h.written)] == TextAt(k, h.recipe, h.written)[..h.torn.value]
  {
    hide NameAt, TextAt, DirAfter, WithOutputs;
    var r, i := h.recipe, h.written;
    var dir, torn := DirAfter(k, r, i), TornDir(k, h);
    FilesAfter(k, r, i);
    forall j | 0 <= j < 11
      ensures j < i ==> NameAt(j) in torn && torn[NameAt(j)] == TextAt(k, r, j)
      ensures i < j ==> NameAt(j) !in torn
      ensures i == j ==> (NameAt(j) in torn <==> h.torn.Some?)
    {
      if i <= j {
        NotYetThere(k, r, i, j);
      }
      if i < j {
        NamesDistinct(i, j);
      } else if j < i < 11 {
        NamesDistinct(j, i);
      }
    }
    forall j | 0 <= j < 11
      ensures j < i ==> NameAt(j) in DirOf(k, h) && DirOf(k, h)[NameAt(j)] == TextAt(k, r, j)
      ensures i < j && NameAt(j) in DirOf(k, h) ==> i == 4 && j < 7
      ensures i == j ==> (NameAt(j) in DirOf(k, h) <==> NameAt(j) in torn)
      ensures i == j && NameAt(j) in torn ==> DirOf(k, h)[NameAt(j)] == torn[NameAt(j)]
    {
      NotStopped(j);
      OutputsTouch(torn, h.outputs, j);
    }
  }

  /** The output files are the sixth and seventh. */
  lemma {:induction false} OutputsTouch(dir: Dir, outputs: seq<string>, j: nat)
    requires j < 11
    ensures WithOutputs(dir, []) == dir
    ensures j != 5 && j != 6 ==>
              (NameAt(j) in WithOutputs(dir, outputs) <==> NameAt(j) in dir)
              && (NameAt(j) in dir ==> WithOutputs(dir, outputs)[NameAt(j)] == dir[NameAt(j)])
  {
    assert NameAt(5) == "stdout.txt" && NameAt(6) == "stderr.txt";
    if j < 5 {
      NamesDistinct(j, 5);
      NamesDistinct(j, 6);
    } else if j > 6 {
      NamesDistinct(5, j);
      NamesDistinct(6, j);
    }
  }

  lemma {:induction false} NotStopped(j: nat)
    requires j < 11
    ensures NameAt(j) != "STOPPED.json"
  {
    if j < 10 {
      NamesDistinct(j, 10);
    } else {
      NamesDistinct(0, 10);
    }
  }

  lemma LastNames()
    ensures NameAt(9) == "manifest.json" && NameAt(10) == "COMPLETE.json" && NameAt(0) == "plan.json"
  {
  }

  ghost function ManifestOf(k: Codec, r: Recipe): Doc
    requires ValidRecipe(r)
  {
    PayloadKeys(k, r, 9);
    assert PAYLOAD_NAMES[..9] == PAYLOAD_NAMES;
    ManifestDoc(r.cell, r.args.freeze, Records(k, PayloadDir(k, r, 9), r.listing))
  }

  lemma {:induction false} LastTexts(k: Codec, r: Recipe)
    requires ValidRecipe(r)
    ensures TextAt(k, r, 9) == k.render(ManifestOf(k, r))
    ensures TextAt(k, r, 10) == k.render(CompleteDoc("complete", r.cell, k.hash(TextAt(k, r, 9))))
    ensures TextAt(k, r, 0) == k.render(PlanDoc(PlanOf(r.cell, r.args)))
  {
    PayloadKeys(k, r, 9);
    assert PAYLOAD_NAMES[..9] == PAYLOAD_NAMES;
  }

  lemma {:induction false} IndexOfName(n: string) returns (j: nat)
    requires n in PAYLOAD_NAMES
    ensures j < 9 && NameAt(j) == n
  {
    j :| 0 <= j < 9 && PAYLOAD_NAMES[j] == n;
  }

  lemma {:induction false} NameListed(j: nat)
    requires j < 9
    ensures NameAt(j) in PAYLOAD_NAMES
  {
  }

  /** The record of the j-th payload, from the text it was created with. */
  ghost function RecordOf(k: Codec, r: Recipe, j: nat): Payload
    requires ValidRecipe(r) && j < 9
  {
    Payload(NameAt(j), |TextAt(k, r, j)|, k.hash(TextAt(k, r, j)))
  }

  lemma {:induction false} RecordListed(k: Codec, r: Recipe, i: nat, j: nat)
    requires ValidRecipe(r) && i < 9 && j < 9 && r.listing[i] == NameAt(j)
    ensures |PayloadsOf(ManifestOf(k, r))| == 9 && PayloadsOf(ManifestOf(k, r))[i] == RecordOf(k, r, j)
  {
    hide TextAt, DirAfter, PayloadDir, NameAt;
    PayloadDirIsDirAfter(k, r, 9);
    FilesAfter(k, r, 9);
  }

  /** The manifest holds one record per payload file, taken from the text that file was created with. */
  lemma {:induction false} ManifestRecords(k: Codec, r: Recipe)
    requires ValidRecipe(r)
    ensures |PayloadsOf(ManifestOf(k, r))| == 9
    ensures forall i :: 0 <= i < 9 ==> PayloadsOf(ManifestOf(k, r))[i].path == r.listing[i]
    ensures forall p :: p in PayloadsOf(ManifestOf(k, r)) ==> exists j :: 0 <= j < 9 && p == RecordOf(k, r, j)
    ensures forall j :: 0 <= j < 9 ==> RecordOf(k, r, j) in PayloadsOf(ManifestOf(k, r))
  {
    hide ManifestOf, PayloadsOf, NameAt, TextAt;
    assert |PayloadsOf(ManifestOf(k, r))| == 9 by {
      assert r.listing[0] in r.listing;
      var j := IndexOfName(r.listing[0]);
      RecordListed(k, r, 0, j);
    }
    forall i | 0 <= i < 9
      ensures PayloadsOf(ManifestOf(k, r))[i].path == r.listing[i]
      ensures exists j :: 0 <= j < 9 && PayloadsOf(ManifestOf(k, r))[i] == RecordOf(k, r, j)
    {
      assert r.listing[i] in r.listing;
      var j := IndexOfName(r.listing[i]);
      RecordListed(k, r, i, j);
    }
    forall j | 0 <= j < 9
      ensures RecordOf(k, r, j) in PayloadsOf(ManifestOf(k, r))
    {
      NameListed(j);
      var i :| 0 <= i < 9 && r.listing[i] == NameAt(j);
      RecordListed(k, r, i, j);
    }
  }

  // ----- Crash safety -----

  /** The digest audit at every point where an attempt may have been cut off: it passes exactly when the COMPLETE marker
      is there, up to its final newline. */
  lemma {:induction false} CrashSafety(k: Codec, h: History)
    requires Faithful(k) && ValidHistory(k, h)
    ensures Verify(k, DirOf(k, h)) <==> MarkerWritten(k, h)
  {
    hide TextAt, NameAt, DirOf, Faithful;
    FilesOf(k, h);
    LastNames();
    if h.written == 11 || (h.written == 10 && h.torn.Some?) {
      AuditOfWrittenFiles(k, h.recipe, DirOf(k, h));
      MarkerPrefix(k, h.recipe, if h.written == 11 then |TextAt(k, h.recipe, 10)| else h.torn.value);
      assert TextAt(k, h.recipe, 10)[..|TextAt(k, h.recipe, 10)|] == TextAt(k, h.recipe, 10);
    }
  }

  /** What a prefix of the marker parses to. */
  lemma {:induction false} MarkerPrefix(k: Codec, r: Recipe, i: nat)
    requires Faithful(k) && ValidRecipe(r) && i <= |TextAt(k, r, 10)|
    ensures TextAt(k, r, 10) != ""
    ensures k.parse(TextAt(k, r, 10)[..i])
         == if i + 1 >= |TextAt(k, r, 10)| then Some(CompleteDoc("complete", r.cell, k.hash(TextAt(k, r, 9)))) else None
  {
    hide TextAt;
    LastTexts(k, r);
    var d := CompleteDoc("complete", r.cell, k.hash(TextAt(k, r, 9)));
    assert ObjectText(k, d);
    assert k.render(d)[..|k.render(d)|] == k.render(d);
  }

  /** The one cut that does not matter: a marker without its newline still verifies. */
  lemma {:induction false} NewlineCutStillVerifies(k: Codec, r: Recipe, stopped: Option<string>)
    requires Faithful(k) && ValidRecipe(r)
    ensures TextAt(k, r, 10) != ""
    ensures var h := History(r, 10, Some(|TextAt(k, r, 10)| - 1), [], stopped);
            ValidHistory(k, h) && Verify(k, DirOf(k, h))
  {
    hide TextAt, DirOf, Verify, Faithful, ValidRecipe;
    MarkerPrefix(k, r, 0);
    CrashSafety(k, History(r, 10, Some(|TextAt(k, r, 10)| - 1), [], stopped));
  }

  lemma {:induction false} CompleteMarker(k: Codec, r: Recipe)
    requires Faithful(k) && ValidRecipe(r)
    ensures k.parse(TextAt(k, r, 10)) == Some(CompleteDoc("complete", r.cell, k.hash(TextAt(k, r, 9))))
    ensures k.parse(TextAt(k, r, 9)) == Some(ManifestOf(k, r))
    ensures k.parse(TextAt(k, r, 0)) == Some(PlanDoc(PlanOf(r.cell, r.args)))
  {
    hide TextAt, ManifestOf;
    LastTexts(k, r);
    assert ObjectText(k, ManifestOf(k, r)) && ObjectText(k, PlanDoc(PlanOf(r.cell, r.args)));
    assert ObjectText(k, CompleteDoc("complete", r.cell, k.hash(TextAt(k, r, 9))));
  }

  /** With the ten other files in place, only the marker decides. */
  lemma {:induction false} AuditOfWrittenFiles(k: Codec, r: Recipe, dir: Dir)
    requires Faithful(k) && ValidRecipe(r)
    requires forall j :: 0 <= j < 10 ==> NameAt(j) in dir && dir[NameAt(j)] == TextAt(k, r, j)
    requires NameAt(10) in dir
    ensures Verify(k, dir) <==>
              var marker := k.parse(dir[NameAt(10)]);
              marker.Some? && marker.value.CompleteDoc? && marker.value.manifestSha256 == k.hash(TextAt(k, r, 9))
  {
    hide TextAt, NameAt, ManifestOf, PayloadsOf, Faithful;
    LastNames();
    CompleteMarker(k, r);
    ManifestRecords(k, r);
    assert dir[NameAt(9)] == TextAt(k, r, 9);
    forall p | p in PayloadsOf(ManifestOf(k, r))
      ensures PayloadIntact(k, dir, p)
    {
      var j :| 0 <= j < 9 && p == RecordOf(k, r, j);
    }
  }

  /** Two directories hold the same manifest and payloads. */
  ghost predicate SamePayloads(d: Dir, e: Dir) {
    forall j :: 0 <= j < 10 ==> NameAt(j) in d && NameAt(j) in e && d[NameAt(j)] == e[NameAt(j)]
  }

  /** Tamper evidence: while the COMPLETE marker of a finished attempt is kept, the audit passes exactly when the
      manifest and all nine payloads still have the contents they were recorded with, whatever else was changed. */
  lemma {:induction false} TamperEvident(k: Codec, r: Recipe, dir: Dir)
    requires Faithful(k) && ValidRecipe(r)
    requires "COMPLETE.json" in dir && dir["COMPLETE.json"] == TextAt(k, r, 10)
    ensures Verify(k, dir) <==> SamePayloads(dir, DirAfter(k, r, 11))
  {
    hide TextAt, NameAt, DirAfter, ManifestOf, PayloadsOf, Verify;
    LastNames();
    CompleteMarker(k, r);
    FilesAfter(k, r, 11);
    if SamePayloads(dir, DirAfter(k, r, 11)) {
      assert forall j :: 0 <= j < 10 ==> NameAt(j) in dir && dir[NameAt(j)] == TextAt(k, r, j);
      AuditOfWrittenFiles(k, r, dir);
    }
    if Verify(k, dir) {
      VerifiedKeepsTexts(k, r, dir);
    }
  }

  lemma {:induction false} VerifiedKeepsTexts(k: Codec, r: Recipe, dir: Dir)
    requires Faithful(k) && ValidRecipe(r) && Verify(k, dir)
    requires dir["COMPLETE.json"] == TextAt(k, r, 10)
    ensures forall j :: 0 <= j < 10 ==> NameAt(j) in dir && dir[NameAt(j)] == TextAt(k, r, j)
  {
    hide TextAt, NameAt, ManifestOf, PayloadsOf;
    LastNames();
    CompleteMarker(k, r);
    ManifestRecords(k, r);
    assert dir["manifest.json"] == TextAt(k, r, 9);
    forall j | 0 <= j < 10
      ensures NameAt(j) in dir && dir[NameAt(j)] == TextAt(k, r, j)
    {
      if j < 9 {
        assert RecordOf(k, r, j) in PayloadsOf(ManifestOf(k, r));
        assert PayloadIntact(k, dir, RecordOf(k, r, j));
      }
    }
  }

  // ----- The scorer's inventory check -----

  /** `Path(name).name == name`. */
  predicate SafeName(s: string) { s != "" && s != "." && '/' !in s }

  const REQUIRED: set<string> := {
    "environment.json", "guards_after.txt", "guards_before.txt", "plan.json", "points.tsv",
    "results.jsonl", "stderr.txt", "stdout.txt", "summary.json"}

  /** The payload loop: stops at the first unsafe, repeated or altered payload. */
  function CollectNames(k: Codec, dir: Dir, payloads: seq<Payload>, seen: set<string>): Option<set<string>> {
    if payloads == [] then Some(seen)
    else
      var p := payloads[0];
      if !SafeName(p.path) || p.path in seen || !PayloadIntact(k, dir, p) then None
      else CollectNames(k, dir, payloads[1..], seen + {p.path})
  }

  /** The checks of the scorer up to and including the inventory. */
  predicate InventoryAccepted(k: Codec, dir: Dir, cell: string, freeze: string) {
    && "manifest.json" in dir && "COMPLETE.json" in dir
    && var manifest, complete := k.parse(dir["manifest.json"]), k.parse(dir["COMPLETE.json"]);
       && manifest.Some? && complete.Some?
       && manifest.value.ManifestDoc? && complete.value.CompleteDoc?
       && manifest.value.cellId == cell && complete.value.cellId == cell
       && manifest.value.freeze == freeze
       && complete.value.status == "complete"
       && complete.value.manifestSha256 == k.hash(dir["manifest.json"])
       && CollectNames(k, dir, manifest.value.payloads, {}) == Some(REQUIRED)
  }

  ghost predicate Collectable(k: Codec, dir: Dir, payloads: seq<Payload>, seen: set<string>) {
    && (forall p :: p in payloads ==> SafeName(p.path) && PayloadIntact(k, dir, p) && p.path !in seen)
    && (forall i, j :: 0 <= i < j < |payloads| ==> payloads[i].path != payloads[j].path)
  }

  lemma {:induction false} CollectNamesMeaning(k: Codec, dir: Dir, payloads: seq<Payload>, seen: set<string>)
    ensures var r := CollectNames(k, dir, payloads, seen);
            && (r.Some? <==> Collectable(k, dir, payloads, seen))
            && (r.Some? ==> r.value == seen + set p | p in payloads :: p.path)
    decreases |payloads|
  {
    hide SafeName, PayloadIntact, Collectable;
    if payloads == [] {
      NothingToCollect(k, dir, seen);
    } else {
      CollectNamesMeaning(k, dir, payloads[1..], seen + {payloads[0].path});
      CollectableStep(k, dir, payloads, seen);
      assert payloads == [payloads[0]] + payloads[1..];
      assert (set p | p in payloads :: p.path)
          == {payloads[0].path} + set p | p in payloads[1..] :: p.path;
    }
  }

  lemma {:induction false} NothingToCollect(k: Codec, dir: Dir, seen: set<string>)
    ensures Collectable(k, dir, [], seen)
  {
  }

  lemma {:induction false} CollectableStep(k: Codec, dir: Dir, payloads: seq<Payload>, seen: set<string>)
    requires payloads != []
    ensures var p := payloads[0];
            Collectable(k, dir, payloads, seen) <==>
            SafeName(p.path) && p.path !in seen && PayloadIntact(k, dir, p)
            && Collectable(k, dir, payloads[1..], seen + {p.path})
  {
    hide SafeName, PayloadIntact;
    var p, rest := payloads[0], payloads[1..];
    assert payloads == [p] + rest;
    assert forall q :: q in payloads <==> q == p || q in rest;
    if Collectable(k, dir, payloads, seen) {
      forall q | q in rest
        ensures SafeName(q.path) && PayloadIntact(k, dir, q) && q.path !in seen + {p.path}
      {
        var j :| 0 <= j < |rest| && rest[j] == q;
        assert payloads[j + 1] == q;
      }
    }
    if Collectable(k, dir, rest, seen + {p.path}) {
      forall i, j | 0 <= i < j < |payloads|
        ensures payloads[i].path != payloads[j].path
      {
        assert payloads[j] == rest[j - 1] && rest[j - 1] in rest;
        if i > 0 {
          assert payloads[i] == rest[i - 1];
        }
      }
    }
  }

  /** Nothing the scorer accepts would fail the runner's own audit, and its payloads are exactly the required nine. */
  lemma {:induction false} ScorerAcceptsOnlyVerified(k: Codec, dir: Dir, cell: string, freeze: string)
    requires InventoryAccepted(k, dir, cell, freeze)
    ensures Verify(k, dir)
    ensures var manifest, complete := k.parse(dir["manifest.json"]).value, k.parse(dir["COMPLETE.json"]).value;
            && manifest.ManifestDoc? && complete.CompleteDoc?
            && manifest.cellId == complete.cellId == cell && manifest.freeze == freeze && complete.status == "complete"
            && (set p | p in manifest.payloads :: p.path) == REQUIRED
  {
    hide SafeName;
    var manifest := k.parse(dir["manifest.json"]).value;
    CollectNamesMeaning(k, dir, manifest.payloads, {});
  }

  /** An unaltered attempt whose marker was written passes the audit and has exactly the inventory the scorer
      demands. */
  lemma {:induction false} CompletedAttemptIsAccepted(k: Codec, h: History)
    requires Faithful(k) && ValidHistory(k, h) && MarkerWritten(k, h)
    ensures Verify(k, DirOf(k, h))
    ensures InventoryAccepted(k, DirOf(k, h), h.recipe.cell, h.recipe.args.freeze)
  {
    hide TextAt, NameAt, DirOf, ManifestOf, PayloadsOf, Verify, CollectNames, InventoryAccepted;
    var r, dir := h.recipe, DirOf(k, h);
    CrashSafety(k, h);
    FilesOf(k, h);
    LastNames();
    CompleteMarker(k, r);
    MarkerPrefix(k, r, if h.written == 11 then |TextAt(k, r, 10)| else h.torn.value);
    assert TextAt(k, r, 10)[..|TextAt(k, r, 10)|] == TextAt(k, r, 10);
    ManifestShape(k, r);
    CollectsRequired(k, r, dir);
    AcceptedFromParts(k, dir, r.cell, r.args.freeze, PayloadsOf(ManifestOf(k, r)));
  }

  lemma {:induction false} AcceptedFromParts(k: Codec, dir: Dir, cell: string, freeze: string, payloads: seq<Payload>)
    requires "manifest.json" in dir && "COMPLETE.json" in dir
    requires k.parse(dir["manifest.json"]) == Some(ManifestDoc(cell, freeze, payloads))
    requires k.parse(dir["COMPLETE.json"]) == Some(CompleteDoc("complete", cell, k.hash(dir["manifest.json"])))
    requires CollectNames(k, dir, payloads, {}) == Some(REQUIRED)
    ensures InventoryAccepted(k, dir, cell, freeze)
  {
  }

  lemma {:induction false} CollectsRequired(k: Codec, r: Recipe, dir: Dir)
    requires Faithful(k) && ValidRecipe(r) && Verify(k, dir) && dir["manifest.json"] == TextAt(k, r, 9)
    ensures CollectNames(k, dir, PayloadsOf(ManifestOf(k, r)), {}) == Some(REQUIRED)
  {
    hide TextAt, ManifestOf, PayloadsOf, CollectNames, SafeName, PayloadIntact;
    CompleteMarker(k, r);
    ManifestRecords(k, r);
    var payloads := PayloadsOf(ManifestOf(k, r));
    ListedPaths(r, payloads);
    assert Collectable(k, dir, payloads, {}) by {
      forall p | p in payloads
        ensures PayloadIntact(k, dir, p)
      {
      }
    }
    CollectNamesMeaning(k, dir, payloads, {});
    var paths := set p | p in payloads :: p.path;
    assert {} + paths == paths;
  }

  lemma {:induction false} ManifestShape(k: Codec, r: Recipe)
    requires ValidRecipe(r)
    ensures ManifestOf(k, r) == ManifestDoc(r.cell, r.args.freeze, PayloadsOf(ManifestOf(k, r)))
  {
  }

  lemma {:induction false} ListedPaths(r: Recipe, payloads: seq<Payload>)
    requires ValidRecipe(r) && |payloads| == 9
    requires forall i :: 0 <= i < 9 ==> payloads[i].path == r.listing[i]
    ensures (set p | p in payloads :: p.path) == REQUIRED
    ensures forall p :: p in payloads ==> SafeName(p.path)
  {
    var paths := set p | p in payloads :: p.path;
    forall n
      ensures n in paths <==> n in PAYLOAD_NAMES
    {
      if n in paths {
        var p :| p in payloads && p.path == n;
        var i :| 0 <= i < 9 && payloads[i] == p;
        assert r.listing[i] in r.listing;
      }
      if n in PAYLOAD_NAMES {
        assert n in r.listing;
        var i :| 0 <= i < 9 && r.listing[i] == n;
        assert payloads[i] in payloads;
      }
    }
    RequiredNames();
    forall p | p in payloads
      ensures SafeName(p.path)
    {
      assert p.path in paths;
    }
  }

  lemma RequiredNames()
    ensures forall n :: n in REQUIRED <==> n in PAYLOAD_NAMES
    ensures forall n :: n in PAYLOAD_NAMES ==> SafeName(n)
  {
    assert forall i :: 0 <= i < 9 ==> SafeName(PAYLOAD_NAMES[i]);
  }
}
