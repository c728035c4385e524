/** The runner itself: exclusive file creation, the manifest loop, the audit loop, resuming and the pending list,
    proved against the runs of AttemptRuns. */
module AttemptRunner {
  import opened AttemptFiles
  import opened AttemptRuns
  import opened Options

  /** How the outside world treats one call of the runner. */
  datatype Fate =
    | Completes
    | CutAt(at: nat, kept: Option<nat>, outputs: seq<string>, stop: Option<string>)

  ghost function EventsOf(r: Recipe, fate: Fate): seq<Event> {
    [Begin(r)]
    + match fate
      case Completes => Writes(11)
      case CutAt(at, kept, outputs, stop) => Writes(at) + [Cut(kept, outputs, stop)]
  }

  /** The audit loop. */
  method VerifyAttempt(k: Codec, dir: Dir) returns (ok: bool)
    ensures ok == Verify(k, dir)
  {
    if "manifest.json" !in dir || "COMPLETE.json" !in dir {
      return false;
    }
    var manifest, complete := k.parse(dir["manifest.json"]), k.parse(dir["COMPLETE.json"]);
    if manifest.None? || complete.None? {
      return false;
    }
    if !complete.value.CompleteDoc? || complete.value.manifestSha256 != k.hash(dir["manifest.json"]) {
      return false;
    }
    var payloads := PayloadsOf(manifest.value);
    for i := 0 to |payloads|
      invariant forall j :: 0 <= j < i ==> PayloadIntact(k, dir, payloads[j])
    {
      if !PayloadIntact(k, dir, payloads[i]) {
        assert payloads[i] in payloads;
        return false;
      }
    }
    return true;
  }

  /** The manifest loop: one record per listed file. */
  method BuildRecords(k: Codec, dir: Dir, listing: seq<string>) returns (records: seq<Payload>)
    requires forall n :: n in listing ==> n in dir
    ensures records == Records(k, dir, listing)
  {
    records := [];
    for i := 0 to |listing|
      invariant records == Records(k, dir, listing)[..i]
    {
      assert listing[i] in listing;
      records := records + [Payload(listing[i], |dir[listing[i]]|, k.hash(dir[listing[i]]))];
    }
  }

  /** Whether some attempt verifies and satisfies `wanted`: the loop over attempt directories with its early exit. */
  method AnyAttempt(k: Codec, dirs: map<string, Dir>, wanted: Dir -> bool) returns (found: bool)
    ensures found <==> exists n :: n in dirs && Verify(k, dirs[n]) && wanted(dirs[n])
  {
    var left := dirs.Keys;
    while left != {}
      invariant left <= dirs.Keys
      invariant forall n :: n in dirs && n !in left ==> !(Verify(k, dirs[n]) && wanted(dirs[n]))
      decreases |left|
    {
      var n :| n in left;
      left := left - {n};
      var ok := VerifyAttempt(k, dirs[n]);
      if ok && wanted(dirs[n]) {
        return true;
      }
    }
    return false;
  }

  function Dirs(root: CellRoot): map<string, Dir> { map n | n in root :: root[n].dir }

  // ----- Unfolding runs -----

  lemma {:induction false} RunFirst(k: Codec, root: CellRoot, events: seq<Event>)
    requires Possible(k, root, events) && events != []
    ensures Enabled(k, root, events[0]) && Possible(k, Step(k, root, events[0]), events[1..])
    ensures Run(k, root, events) == Run(k, Step(k, root, events[0]), events[1..])
  {
    hide Enabled, Step;
  }

  lemma {:induction false} RunNone(k: Codec, root: CellRoot)
    ensures Possible(k, root, []) && Run(k, root, []) == root
  {
  }

  lemma {:induction false} BeginStep(k: Codec, root: CellRoot, r: Recipe)
    requires Enabled(k, root, Begin(r))
    ensures Step(k, root, Begin(r)) == AfterBegin(k, root, r)
  {
  }

  lemma {:induction false} SplitEvents(r: Recipe, fate: Fate)
    ensures var events := EventsOf(r, fate);
            var limit := if fate.Completes? then 11 else fate.at;
            var tail := if fate.Completes? then [] else [Cut(fate.kept, fate.outputs, fate.stop)];
            events != [] && events[0] == Begin(r) && events[1..] == Writes(limit) + tail
  {
  }

  lemma {:induction false} FoundIsEarlyReturn(k: Codec, root: CellRoot, a: Args)
    ensures EarlyReturn(k, root, a)
            <==> exists n :: n in Dirs(root) && Verify(k, Dirs(root)[n]) && Matches(k, Dirs(root)[n], a)
  {
    hide Verify, Matches;
    if EarlyReturn(k, root, a) {
      var n :| n in root && Verify(k, root[n].dir) && Matches(k, root[n].dir, a);
      assert n in Dirs(root) && Dirs(root)[n] == root[n].dir;
    }
  }

  lemma {:induction false} DirsWithNew(root: CellRoot, name: string, a: Attempt)
    ensures Dirs(root[name := a]) == Dirs(root)[name := a.dir]
    ensures Dirs(root).Keys == root.Keys
    ensures name in root ==> Dirs(root)[name] == root[name].dir
  {
  }

  lemma {:induction false} OneMoreKey<T>(m: map<string, T>, n: string, v: T)
    requires n !in m
    ensures |m[n := v].Keys| == |m| + 1
  {
    assert m[n := v].Keys == m.Keys + {n};
  }

  lemma {:induction false} SameSize<T>(m: map<string, T>)
    ensures |m| == |m.Keys|
  {
  }

  // ----- The directories behind one step -----

  lemma {:induction false} InvNumbered(k: Codec, root: CellRoot)
    requires Inv(k, root)
    ensures Numbered(root)
  {
    hide Numbered, Tracked;
  }

  lemma {:induction false} TrackedIn(k: Codec, root: CellRoot, n: string)
    requires Inv(k, root) && n in root
    ensures Tracked(k, root[n])
  {
    hide Tracked, Numbered;
  }

  lemma {:induction false} TrackedDir(k: Codec, r: Recipe, i: nat, a: Attempt)
    requires Tracked(k, a) && a.history == SoFar(r, i)
    ensures ValidRecipe(r) && i <= 11 && a.dir == DirAfter(k, r, i)
  {
    hide TextAt, NameAt, DirAfter;
  }

  lemma {:induction false} StepDirs(k: Codec, root: CellRoot, attempt: string, r: Recipe, i: nat)
    requires Inv(k, root) && Enabled(k, root, Write) && ValidRecipe(r) && i < 11
    requires Running(root, attempt) && root[attempt].history == SoFar(r, i)
    ensures Dirs(Step(k, root, Write)) == Dirs(root)[attempt := root[attempt].dir[NameAt(i) := TextAt(k, r, i)]]
  {
    hide NameAt, TextAt, ValidRecipe, Inv, Tracked, DirAfter;
    TrackedIn(k, root, attempt);
    OnlyRunner(k, root, attempt);
    TrackedDir(k, r, i, root[attempt]);
    NotYetThere(k, r, i, i);
    assert Written(k, root[attempt]).dir == root[attempt].dir[NameAt(i) := TextAt(k, r, i)];
  }

  /** The directory left behind by a cut. */
  function CutDir(dir: Dir, name: string, text: string, kept: Option<nat>, outputs: seq<string>,
                  stop: Option<string>): Dir
    requires kept.Some? ==> kept.value <= |text|
  {
    var torn := if kept.None? then dir else dir[name := text[..kept.value]];
    var left := WithOutputs(torn, outputs);
    if stop.None? then left else left["STOPPED.json" := stop.value]
  }

  /** Nothing a cut may create is there yet. */
  ghost predicate Room(dir: Dir, name: string, kept: Option<nat>, outputs: seq<string>) {
    && name !in dir && "STOPPED.json" !in dir && name != "STOPPED.json" && |outputs| <= 2
    && (outputs != [] ==> kept.None? && "stdout.txt" !in dir && "stderr.txt" !in dir)
  }

  lemma {:induction false} CutOffDir(k: Codec, a: Attempt, r: Recipe, i: nat, kept: Option<nat>, outputs: seq<string>,
                                    stop: Option<string>)
    requires Tracked(k, a) && a.history == SoFar(r, i) && i < 11 && ValidRecipe(r)
    requires ValidCut(k, r, i, kept, outputs)
    ensures CutOff(k, a, kept, outputs, stop).dir == CutDir(a.dir, NameAt(i), TextAt(k, r, i), kept, outputs, stop)
    ensures !CutOff(k, a, kept, outputs, stop).running
    ensures Room(a.dir, NameAt(i), kept, outputs)
  {
    hide NameAt, TextAt, ValidRecipe;
    TrackedDir(k, r, i, a);
    NotYetThere(k, r, i, i);
    NotStopped(i);
    if outputs != [] {
      OutputsNotYetThere(k, r);
    }
  }

  lemma {:induction false} CutDirs(k: Codec, root: CellRoot, attempt: string, r: Recipe, i: nat, kept: Option<nat>,
                                   outputs: seq<string>, stop: Option<string>)
    requires Inv(k, root) && Enabled(k, root, Cut(kept, outputs, stop)) && ValidRecipe(r) && i < 11
    requires Running(root, attempt) && root[attempt].history == SoFar(r, i)
    ensures ValidCut(k, r, i, kept, outputs)
    ensures Dirs(Step(k, root, Cut(kept, outputs, stop)))
         == Dirs(root)[attempt := CutDir(root[attempt].dir, NameAt(i), TextAt(k, r, i), kept, outputs, stop)]
    ensures Idle(Step(k, root, Cut(kept, outputs, stop)))
  {
    hide NameAt, TextAt, ValidRecipe, Inv, Tracked, CutOff, CutDir, ValidCut, Room;
    TrackedIn(k, root, attempt);
    OnlyRunner(k, root, attempt);
    assert ValidCut(k, r, i, kept, outputs);
    CutKept(k, r, i, kept, outputs);
    CutOffDir(k, root[attempt], r, i, kept, outputs, stop);
  }

  lemma {:induction false} OnlyRunner(k: Codec, root: CellRoot, attempt: string)
    requires Inv(k, root) && Running(root, attempt)
    ensures forall n :: n in root ==> (root[n].running <==> n == attempt)
  {
    hide Tracked, Numbered;
    assert forall n :: n in root && root[n].running ==> Running(root, n);
  }

  lemma {:induction false} CutKept(k: Codec, r: Recipe, i: nat, kept: Option<nat>, outputs: seq<string>)
    requires ValidRecipe(r) && ValidCut(k, r, i, kept, outputs) && i < 11
    ensures kept.Some? ==> kept.value < |TextAt(k, r, i)|
  {
    hide TextAt;
  }

  lemma {:induction false} RecipeTexts(r: Recipe)
    requires ValidRecipe(r)
    ensures |r.texts| == 8
  {
  }

  lemma {:induction false} PayloadTextAt(k: Codec, r: Recipe, i: nat)
    requires ValidRecipe(r) && i < 9
    ensures PayloadText(k, r, i) == TextAt(k, r, i)
  {
  }

  lemma {:induction false} ListingOnDisk(k: Codec, r: Recipe)
    requires ValidRecipe(r)
    ensures forall n :: n in r.listing ==> n in DirAfter(k, r, 9)
  {
    PayloadKeys(k, r, 9);
    PayloadDirIsDirAfter(k, r, 9);
    assert PAYLOAD_NAMES[..9] == PAYLOAD_NAMES;
  }

  lemma {:induction false} ManifestFromDisk(k: Codec, r: Recipe)
    requires ValidRecipe(r)
    ensures forall n :: n in r.listing ==> n in DirAfter(k, r, 9)
    ensures ManifestOf(k, r) == ManifestDoc(r.cell, r.args.freeze, Records(k, DirAfter(k, r, 9), r.listing))
  {
    hide DirAfter, PayloadDir;
    ListingOnDisk(k, r);
    PayloadDirIsDirAfter(k, r, 9);
  }

  lemma {:induction false} MarkerFromDisk(k: Codec, r: Recipe)
    requires ValidRecipe(r)
    ensures "manifest.json" in DirAfter(k, r, 10) && DirAfter(k, r, 10)["manifest.json"] == TextAt(k, r, 9)
  {
    hide DirAfter, TextAt;
    FilesAfter(k, r, 10);
    LastNames();
  }

  class CellRunner {
    const codec: Codec
    /** The attempt directories on disk. */
    var dirs: map<string, Dir>
    /** The same directories with their histories. */
    ghost var root: CellRoot

    ghost predicate Valid()
      reads this
    {
      Inv(codec, root) && dirs == Dirs(root)
    }

    constructor (codec: Codec)
      ensures Valid() && root == map[] && this.codec == codec
    {
      this.codec := codec;
      dirs := map[];
      root := map[];
      new;
      EmptyInv(this.codec);
    }

    /** Creates one file exclusively. */
    method WriteTextExclusive(attempt: string, name: string, text: string) returns (ok: bool)
      requires attempt in dirs
      modifies this`dirs
      ensures ok <==> name !in old(dirs)[attempt]
      ensures dirs == if ok then old(dirs)[attempt := old(dirs)[attempt][name := text]] else old(dirs)
    {
      ok := name !in dirs[attempt];
      if ok {
        dirs := dirs[attempt := dirs[attempt][name := text]];
      }
    }

    /** One call of the runner, cut off wherever the outside world decides: it follows the run, file by file. */
    method RunCell(r: Recipe, fate: Fate) returns (skipped: bool)
      requires Faithful(codec) && Valid() && Idle(root) && ValidRecipe(r)
      requires Possible(codec, root, EventsOf(r, fate))
      requires fate.CutAt? ==> fate.at < 11
      modifies this
      ensures Valid() && Idle(root)
      ensures skipped <==> EarlyReturn(codec, old(root), r.args)
      ensures skipped ==> root == old(root)
      ensures !skipped ==> root == Run(codec, old(root), EventsOf(r, fate))
      ensures !skipped ==> |dirs| == |old(dirs)| + 1 && AttemptName(|dirs|) in dirs && AttemptName(|dirs|) !in old(dirs)
    {
      hide Verify, Matches, Inv, Faithful, ValidRecipe, AttemptName, Possible, Run, EventsOf;
      skipped := AnyAttempt(codec, dirs, dir => Matches(codec, dir, r.args));
      FoundIsEarlyReturn(codec, root, r.args);
      if !skipped {
        FreshAttempt(r, fate);
      }
    }

    /** A new attempt, from its empty directory to its end. */
    method FreshAttempt(r: Recipe, fate: Fate)
      requires Faithful(codec) && Valid() && Idle(root) && ValidRecipe(r) && !EarlyReturn(codec, root, r.args)
      requires Possible(codec, root, EventsOf(r, fate))
      requires fate.CutAt? ==> fate.at < 11
      modifies this
      ensures Valid() && Idle(root)
      ensures root == Run(codec, old(root), EventsOf(r, fate))
      ensures |dirs| == |old(dirs)| + 1 && AttemptName(|dirs|) in dirs && AttemptName(|dirs|) !in old(dirs)
    {
      hide Inv, Faithful, ValidRecipe, AttemptName, Step, Possible, Run, Enabled, Writes, EventsOf, EarlyReturn, Dirs;
      ghost var target := Run(codec, root, EventsOf(r, fate));
      ghost var tail := if fate.Completes? then [] else [Cut(fate.kept, fate.outputs, fate.stop)];
      var limit := if fate.Completes? then 11 else fate.at;
      SplitEvents(r, fate);
      RunFirst(codec, root, EventsOf(r, fate));
      BeginStep(codec, root, r);
      var attempt := StartAttempt(r);
      ProduceAttempt(attempt, r, limit, target, tail);
      if fate.CutAt? {
        RunFirst(codec, root, tail);
        EndEarly(attempt, r, limit, fate.kept, fate.outputs, fate.stop);
        assert tail[1..] == [];
      }
      RunNone(codec, root);
      SameSize(dirs);
    }

    /** The next numbered directory; creating it cannot collide. */
    method StartAttempt(r: Recipe) returns (attempt: string)
      requires Valid() && Idle(root) && ValidRecipe(r) && !EarlyReturn(codec, root, r.args)
      modifies this
      ensures Valid() && root == AfterBegin(codec, old(root), r)
      ensures Running(root, attempt) && root[attempt].history == SoFar(r, 0)
      ensures attempt == AttemptName(|dirs.Keys|) && attempt !in old(dirs)
      ensures |dirs.Keys| == |old(dirs)| + 1 && attempt in dirs
    {
      hide Inv, ValidRecipe, AttemptName, EarlyReturn, Dirs, AfterBegin, Numbered, Idle, TreeExtends;
      attempt := AttemptName(|dirs| + 1);
      SameSize(dirs);
      SameSize(root);
      DirsWithNew(root, attempt, Attempt(map[], SoFar(r, 0), true));
      BeginKeepsInv(codec, root, r);
      InvNumbered(codec, root);
      NextNameIsFree(root);
      assert attempt !in dirs.Keys;
      OneMoreKey(dirs, attempt, map[]);
      dirs := dirs[attempt := map[]];
      root := AfterBegin(codec, root, r);
    }

    /** The writes of one attempt, in order. */
    method ProduceAttempt(attempt: string, r: Recipe, limit: nat, ghost target: CellRoot, ghost tail: seq<Event>)
      requires Faithful(codec) && Valid() && ValidRecipe(r) && limit <= 11
      requires Running(root, attempt) && root[attempt].history == SoFar(r, 0)
      requires Possible(codec, root, Writes(limit) + tail) && Run(codec, root, Writes(limit) + tail) == target
      modifies this
      ensures Valid() && dirs.Keys == old(dirs).Keys
      ensures attempt in root && root[attempt].history == SoFar(r, limit)
      ensures limit < 11 ==> Running(root, attempt)
      ensures limit == 11 ==> Idle(root)
      ensures Possible(codec, root, tail) && Run(codec, root, tail) == target
    {
      hide Inv, Faithful, ValidRecipe, TextAt, NameAt, Step, Possible, Run, Enabled;
      assert Writes(0) + tail == tail;
      for i := 0 to limit
        invariant Valid() && dirs.Keys == old(dirs).Keys
        invariant attempt in root && root[attempt].history == SoFar(r, i)
        invariant i < 11 ==> Running(root, attempt)
        invariant i == 11 ==> Idle(root)
        invariant Possible(codec, root, Writes(limit - i) + tail)
        invariant Run(codec, root, Writes(limit - i) + tail) == target
      {
        ghost var rest := Writes(limit - i) + tail;
        assert rest[0] == Write && rest[1..] == Writes(limit - i - 1) + tail;
        RunFirst(codec, root, rest);
        WriteNext(attempt, r, i);
      }
    }

    /** One file: its text is computed from the directory as it is, and creating it cannot collide. */
    method WriteNext(attempt: string, r: Recipe, i: nat)
      requires Faithful(codec) && Valid() && ValidRecipe(r) && i < 11
      requires Running(root, attempt) && root[attempt].history == SoFar(r, i)
      requires Enabled(codec, root, Write)
      modifies this
      ensures Valid() && dirs.Keys == old(dirs).Keys
      ensures root == Step(codec, old(root), Write)
      ensures attempt in root && root[attempt].history == SoFar(r, i + 1)
      ensures i + 1 < 11 ==> Running(root, attempt)
      ensures i + 1 == 11 ==> Idle(root)
    {
      hide Faithful, TextAt, NameAt, ValidRecipe, Step, Enabled, Inv, Dirs, Tracked, DirAfter;
      TrackedIn(codec, root, attempt);
      TrackedDir(codec, r, i, root[attempt]);
      DirsWithNew(root, attempt, root[attempt]);
      var text := ComputeText(r, i, dirs[attempt]);
      NotYetThere(codec, r, i, i);
      var ok := WriteTextExclusive(attempt, NameAt(i), text);
      OneWrite(codec, root, attempt);
      StepKeepsInv(codec, root, Write);
      StepDirs(codec, root, attempt, r, i);
      root := Step(codec, root, Write);
    }

    /** The run ends early: perhaps inside the next file, perhaps with outputs but no results, perhaps leaving a stop
        record. */
    method EndEarly(attempt: string, r: Recipe, i: nat, kept: Option<nat>, outputs: seq<string>, stop: Option<string>)
      requires Faithful(codec) && Valid() && ValidRecipe(r) && i < 11
      requires Running(root, attempt) && root[attempt].history == SoFar(r, i)
      requires Enabled(codec, root, Cut(kept, outputs, stop))
      modifies this
      ensures Valid() && Idle(root) && dirs.Keys == old(dirs).Keys
      ensures root == Step(codec, old(root), Cut(kept, outputs, stop))
    {
      hide Faithful, TextAt, NameAt, ValidRecipe, Step, Enabled, Inv, Dirs, Tracked, CutOff, CutDir, DirAfter, ValidCut,
        Room;
      TrackedIn(codec, root, attempt);
      TrackedDir(codec, r, i, root[attempt]);
      DirsWithNew(root, attempt, root[attempt]);
      CutDirs(codec, root, attempt, r, i, kept, outputs, stop);
      CutKept(codec, r, i, kept, outputs);
      CutOffDir(codec, root[attempt], r, i, kept, outputs, stop);
      StepKeepsInv(codec, root, Cut(kept, outputs, stop));
      var text := ComputeText(r, i, dirs[attempt]);
      LeaveBehind(attempt, NameAt(i), text, kept, outputs, stop);
      root := Step(codec, root, Cut(kept, outputs, stop));
    }

    method LeaveBehind(attempt: string, name: string, text: string, kept: Option<nat>, outputs: seq<string>,
                       stop: Option<string>)
      requires attempt in dirs && Room(dirs[attempt], name, kept, outputs)
      requires kept.Some? ==> kept.value <= |text|
      modifies this`dirs
      ensures dirs == old(dirs)[attempt := CutDir(old(dirs)[attempt], name, text, kept, outputs, stop)]
    {
      if kept.Some? {
        var _ := WriteTextExclusive(attempt, name, text[..kept.value]);
      }
      if outputs != [] {
        var _ := WriteTextExclusive(attempt, "stdout.txt", outputs[0]);
      }
      if |outputs| == 2 {
        var _ := WriteTextExclusive(attempt, "stderr.txt", outputs[1]);
      }
      if stop.Some? {
        var _ := WriteTextExclusive(attempt, "STOPPED.json", stop.value);
      }
    }

    /** The manifest is computed by its loop, the marker from the manifest on disk. */
    method ComputeText(r: Recipe, i: nat, dir: Dir) returns (text: string)
      requires ValidRecipe(r) && i < 11 && dir == DirAfter(codec, r, i)
      ensures text == TextAt(codec, r, i)
    {
      hide ValidRecipe;
      LastTexts(codec, r);
      if i < 9 {
        RecipeTexts(r);
        text := PayloadText(codec, r, i);
        PayloadTextAt(codec, r, i);
      } else if i == 9 {
        ListingOnDisk(codec, r);
        var records := BuildRecords(codec, dir, r.listing);
        ManifestFromDisk(codec, r);
        text := codec.render(ManifestDoc(r.cell, r.args.freeze, records));
      } else {
        MarkerFromDisk(codec, r);
        text := codec.render(CompleteDoc("complete", r.cell, codec.hash(dir["manifest.json"])));
      }
    }
  }

  /** The pending list: one pass over the cells, in index order.  A malformed head is refused. */
  method PendingIndices(k: Codec, cells: seq<map<string, Dir>>, a: Args) returns (pending: Option<seq<nat>>)
    ensures pending.None? <==>
              a.expectedHead != ""
              && !(|a.expectedHead| == 40 && forall i :: 0 <= i < 40 ==> LowerHex(a.expectedHead[i]))
    ensures pending.Some? ==>
              && (forall i, j :: 0 <= i < j < |pending.value| ==> pending.value[i] < pending.value[j])
              && (forall i: nat :: i in pending.value <==>
                    i < |cells|
                    && !exists n :: n in cells[i] && Verify(k, cells[i][n]) && CountsAsDone(k, cells[i][n], a))
  {
    hide Verify, CountsAsDone, IsHead, LowerHex;
    HeadMeaning(a.expectedHead);
    if a.expectedHead != "" && !IsHead(a.expectedHead) {
      return None;
    }
    var found: seq<nat> := [];
    for c := 0 to |cells|
      invariant forall i, j :: 0 <= i < j < |found| ==> found[i] < found[j]
      invariant forall i: nat :: i in found <==>
                  i < c && !exists n :: n in cells[i] && Verify(k, cells[i][n]) && CountsAsDone(k, cells[i][n], a)
    {
      var complete := AnyAttempt(k, cells[c], dir => CountsAsDone(k, dir, a));
      assert complete <==> exists n :: n in cells[c] && Verify(k, cells[c][n]) && CountsAsDone(k, cells[c][n], a);
      if !complete {
        assert forall i :: 0 <= i < |found| ==> found[i] in found;
        found := found + [c];
      }
    }
    return Some(found);
  }
}
