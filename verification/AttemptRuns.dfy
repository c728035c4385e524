/** Runs of one cell: starts, writes, stops, crashes and torn files in any order and number, with one runner at a time.
    Each attempt carries its history next to the directory it really wrote; the invariant ties the two together. */
module AttemptRuns {
  import opened AttemptFiles
  import Decimal
  import opened Options

  datatype Attempt = Attempt(dir: Dir, history: History, running: bool)

  /** The attempt directories of one cell, by name. */
  type CellRoot = map<string, Attempt>

  function AttemptName(i: nat): string { "attempt-" + Decimal.ZeroPadded(i, 4) }

  lemma {:induction false} AttemptNameInjective(i: nat, j: nat)
    requires AttemptName(i) == AttemptName(j)
    ensures i == j
  {
    hide Decimal.ZeroPadded, Decimal.ParseNat;
    assert Decimal.ZeroPadded(i, 4) == AttemptName(i)[8..];
    assert Decimal.ZeroPadded(j, 4) == AttemptName(j)[8..];
    Decimal.ZeroPaddedRoundTrip(i, 4);
    Decimal.ZeroPaddedRoundTrip(j, 4);
  }

  /** Names are "attempt-" and the number, with zeros up to four digits. */
  lemma {:induction false} AttemptNameShape(i: nat)
    ensures AttemptName(i)[..8] == "attempt-" && Decimal.ParseNat(AttemptName(i)[8..]) == i
    ensures forall c :: c in AttemptName(i)[8..] ==> Decimal.IsDigit(c)
    ensures |AttemptName(i)| >= 12 && (i < 10000 ==> |AttemptName(i)| == 12)
  {
    hide Decimal.Digits, Decimal.ParseNat;
    var digits := Decimal.ZeroPadded(i, 4);
    assert AttemptName(i)[8..] == digits;
    Decimal.ZeroPaddedRoundTrip(i, 4);
    Decimal.DigitsRoundTrip(i);
    if i < 10000 {
      FourDigits(i);
    }
  }

  lemma {:induction false} FourDigits(i: nat)
    requires i < 10000
    ensures |Decimal.Digits(i)| <= 4
  {
    assert |Decimal.Digits(i / 1000)| == 1;
    assert i < 10 || |Decimal.Digits(i)| == |Decimal.Digits(i / 10)| + 1;
    assert i / 10 < 10 || |Decimal.Digits(i / 10)| == |Decimal.Digits(i / 10 / 10)| + 1;
    assert i / 10 / 10 < 10 || |Decimal.Digits(i / 10 / 10)| == |Decimal.Digits(i / 10 / 10 / 10)| + 1;
    assert i / 10 / 10 / 10 < 10;
  }

  /** Some verified attempt matches: the runner returns early. */
  ghost predicate EarlyReturn(k: Codec, root: CellRoot, a: Args) {
    exists n :: n in root && Verify(k, root[n].dir) && Matches(k, root[n].dir, a)
  }

  /** The pending list still holds the cell. */
  ghost predicate Pending(k: Codec, root: CellRoot, a: Args) {
    !exists n :: n in root && Verify(k, root[n].dir) && CountsAsDone(k, root[n].dir, a)
  }

  ghost predicate Running(root: CellRoot, n: string) { n in root && root[n].running }

  ghost predicate Idle(root: CellRoot) { forall n :: n in root ==> !root[n].running }

  // ----- Steps -----

  datatype Event =
    | Begin(recipe: Recipe)                           // run the cell
    | Write                                           // the next file is created and filled
    | Cut(kept: Option<nat>, outputs: seq<string>, stop: Option<string>)
      // the run ends: perhaps inside a file, perhaps with outputs but no results, perhaps with a stop record

  /** Creates a file, or fails if it exists. */
  function WriteExclusive(dir: Dir, name: string, text: string): Option<Dir> {
    if name in dir then None else Some(dir[name := text])
  }

  function WriteOutputs(dir: Dir, outputs: seq<string>): Option<Dir> {
    if outputs == [] then Some(dir)
    else
      var first := WriteExclusive(dir, "stdout.txt", outputs[0]);
      if first.None? || |outputs| == 1 then first else WriteExclusive(first.value, "stderr.txt", outputs[1])
  }

  ghost function AfterBegin(k: Codec, root: CellRoot, r: Recipe): CellRoot {
    var name := AttemptName(|root| + 1);
    if !Idle(root) || EarlyReturn(k, root, r.args) || name in root then root
    else root[name := Attempt(map[], SoFar(r, 0), true)]
  }

  /** The next write of a running attempt; the attempt stops running after the last one. */
  ghost function Written(k: Codec, a: Attempt): Attempt
    requires ValidRecipe(a.history.recipe) && a.history.written < 11
  {
    var i := a.history.written;
    var dir := WriteExclusive(a.dir, NameAt(i), TextAt(k, a.history.recipe, i));
    if dir.None? then a.(running := false)
    else Attempt(dir.value, a.history.(written := i + 1), i + 1 < 11)
  }

  /** A run that ends early. */
  ghost function CutOff(k: Codec, a: Attempt, kept: Option<nat>, outputs: seq<string>, stop: Option<string>): Attempt
    requires ValidRecipe(a.history.recipe) && a.history.written < 11
    requires ValidCut(k, a.history.recipe, a.history.written, kept, outputs)
  {
    var i := a.history.written;
    var torn := if kept.None? then Some(a.dir)
                else WriteExclusive(a.dir, NameAt(i), TextAt(k, a.history.recipe, i)[..kept.value]);
    var left := if torn.None? then None else WriteOutputs(torn.value, outputs);
    var dir := if left.None? || stop.None? then left else WriteExclusive(left.value, "STOPPED.json", stop.value);
    if dir.None? then a.(running := false)
    else Attempt(dir.value, a.history.(torn := kept, outputs := outputs, stopped := stop), false)
  }

  ghost predicate Enabled(k: Codec, root: CellRoot, e: Event) {
    match e
    case Begin(r) => ValidRecipe(r)
    case Write => forall n :: Running(root, n) ==> ValidRecipe(root[n].history.recipe) && root[n].history.written < 11
    case Cut(kept, outputs, stop) =>
      forall n :: Running(root, n) ==>
        && ValidRecipe(root[n].history.recipe) && root[n].history.written < 11
        && ValidCut(k, root[n].history.recipe, root[n].history.written, kept, outputs)
  }

  ghost function Step(k: Codec, root: CellRoot, e: Event): CellRoot
    requires Enabled(k, root, e)
  {
    match e
    case Begin(r) => AfterBegin(k, root, r)
    case Write => map n | n in root :: if root[n].running then assert Running(root, n); Written(k, root[n]) else root[n]
    case Cut(kept, outputs, stop) =>
      map n | n in root ::
        if root[n].running then assert Running(root, n); CutOff(k, root[n], kept, outputs, stop) else root[n]
  }

  ghost predicate Possible(k: Codec, root: CellRoot, events: seq<Event>)
    decreases |events|
  {
    events == [] || (Enabled(k, root, events[0]) && Possible(k, Step(k, root, events[0]), events[1..]))
  }

  ghost function Run(k: Codec, root: CellRoot, events: seq<Event>): CellRoot
    requires Possible(k, root, events)
    decreases |events|
  {
    if events == [] then root else Run(k, Step(k, root, events[0]), events[1..])
  }

  // ----- The invariant -----

  /** Directories are numbered 1 to n. */
  ghost predicate Numbered(root: CellRoot) {
    && (forall i: nat :: 1 <= i <= |root| ==> AttemptName(i) in root)
    && (forall n :: n in root ==> exists i: nat :: 1 <= i <= |root| && AttemptName(i) == n)
  }

  ghost predicate Tracked(k: Codec, a: Attempt) {
    && ValidHistory(k, a.history)
    && a.dir == DirOf(k, a.history)
    && (a.running ==> a.history.written < 11 && a.history == SoFar(a.history.recipe, a.history.written))
  }

  ghost predicate Inv(k: Codec, root: CellRoot) {
    && Numbered(root)
    && (forall n :: n in root ==> Tracked(k, root[n]))
    && (forall m, n :: Running(root, m) && Running(root, n) ==> m == n)
  }

  lemma {:induction false} WrittenTracked(k: Codec, a: Attempt)
    requires Tracked(k, a) && a.running
    ensures Tracked(k, Written(k, a))
    ensures Written(k, a).history == a.history.(written := a.history.written + 1)
    ensures Extends(a.dir, Written(k, a).dir)
  {
    hide NameAt, TextAt;
    var i := a.history.written;
    NotYetThere(k, a.history.recipe, i, i);
  }

  lemma {:induction false} CutTracked(k: Codec, a: Attempt, kept: Option<nat>, outputs: seq<string>,
                                      stop: Option<string>)
    requires Tracked(k, a) && a.running
    requires ValidCut(k, a.history.recipe, a.history.written, kept, outputs)
    ensures Tracked(k, CutOff(k, a, kept, outputs, stop))
    ensures CutOff(k, a, kept, outputs, stop).history == a.history.(torn := kept, outputs := outputs, stopped := stop)
    ensures Extends(a.dir, CutOff(k, a, kept, outputs, stop).dir)
  {
    hide NameAt, TextAt;
    var i := a.history.written;
    NotYetThere(k, a.history.recipe, i, i);
    NotStopped(i);
    if outputs != [] {
      OutputsNotYetThere(k, a.history.recipe);
    }
  }

  lemma {:induction false} OutputsNotYetThere(k: Codec, r: Recipe)
    requires ValidRecipe(r)
    ensures "stdout.txt" !in DirAfter(k, r, 4) && "stderr.txt" !in DirAfter(k, r, 4)
  {
    hide DirAfter;
    NotYetThere(k, r, 4, 5);
    NotYetThere(k, r, 4, 6);
    assert NameAt(5) == "stdout.txt" && NameAt(6) == "stderr.txt";
  }

  /** Every file is still there with the same text. */
  ghost predicate Extends(d: Dir, e: Dir) { forall n :: n in d ==> n in e && e[n] == d[n] }

  ghost predicate TreeExtends(r: CellRoot, s: CellRoot) {
    forall n :: n in r ==> n in s && Extends(r[n].dir, s[n].dir) && s[n].history.recipe == r[n].history.recipe
  }

  lemma {:induction false} NextNameIsFree(root: CellRoot)
    requires Numbered(root)
    ensures AttemptName(|root| + 1) !in root
  {
    hide AttemptName;
    if AttemptName(|root| + 1) in root {
      var i: nat :| 1 <= i <= |root| && AttemptName(i) == AttemptName(|root| + 1);
      AttemptNameInjective(i, |root| + 1);
      assert false;
    }
  }

  lemma {:induction false} BeginKeepsInv(k: Codec, root: CellRoot, r: Recipe)
    requires Inv(k, root) && ValidRecipe(r)
    ensures Inv(k, AfterBegin(k, root, r)) && TreeExtends(root, AfterBegin(k, root, r))
    ensures Idle(root) && !EarlyReturn(k, root, r.args) ==>
              AfterBegin(k, root, r)
              == root[AttemptName(|root| + 1) := Attempt(map[], SoFar(r, 0), true)]
  {
    hide AttemptName, EarlyReturn, Numbered, Tracked, Extends;
    NextNameIsFree(root);
    var name, fresh' := AttemptName(|root| + 1), Attempt(map[], SoFar(r, 0), true);
    OneMoreNumbered(root, fresh');
    NewAttemptTracked(k, r);
    forall n | n in root { ExtendsRefl(root[n].dir); }
    var s := AfterBegin(k, root, r);
    if s != root {
      assert s == root[name := fresh'];
      OneRunner(root, s, name, fresh');
    }
  }

  lemma {:induction false} OneRunner(root: CellRoot, s: CellRoot, name: string, a: Attempt)
    requires Idle(root) && s == root[name := a]
    ensures forall m, n :: Running(s, m) && Running(s, n) ==> m == n
  {
  }

  lemma {:induction false} NewAttemptTracked(k: Codec, r: Recipe)
    requires ValidRecipe(r)
    ensures Tracked(k, Attempt(map[], SoFar(r, 0), true))
  {
    hide ValidRecipe;
  }

  lemma {:induction false} OneMoreNumbered(root: CellRoot, a: Attempt)
    requires Numbered(root) && AttemptName(|root| + 1) !in root
    ensures Numbered(root[AttemptName(|root| + 1) := a])
  {
    hide AttemptName;
    var name := AttemptName(|root| + 1);
    var s := root[name := a];
    assert s.Keys == root.Keys + {name};
    assert |s| == |s.Keys| == |root| + 1;
  }

  /** A step that changes attempts in place. */
  lemma {:induction false} PointwiseKeepsInv(k: Codec, root: CellRoot, s: CellRoot)
    requires Inv(k, root) && s.Keys == root.Keys
    requires forall n :: n in root ==>
               && Tracked(k, s[n]) && Extends(root[n].dir, s[n].dir)
               && s[n].history.recipe == root[n].history.recipe && (s[n].running ==> root[n].running)
    ensures Inv(k, s) && TreeExtends(root, s)
  {
    hide Tracked, Extends, AttemptName;
    assert |s| == |s.Keys| && |root| == |root.Keys|;
    assert forall n :: n in s <==> n in root;
    forall m, n | Running(s, m) && Running(s, n)
      ensures m == n
    {
      assert Running(root, m) && Running(root, n);
    }
  }

  lemma {:induction false} StepKeepsInv(k: Codec, root: CellRoot, e: Event)
    requires Inv(k, root) && Enabled(k, root, e)
    ensures Inv(k, Step(k, root, e)) && TreeExtends(root, Step(k, root, e))
  {
    hide Tracked, Numbered, Written, CutOff, ValidRecipe, Extends;
    var s := Step(k, root, e);
    if e.Begin? {
      BeginKeepsInv(k, root, e.recipe);
    } else {
      assert s.Keys == root.Keys;
      forall n | n in root
        ensures Tracked(k, s[n]) && Extends(root[n].dir, s[n].dir)
        ensures s[n].history.recipe == root[n].history.recipe && (s[n].running ==> root[n].running)
      {
        if !root[n].running {
          ExtendsRefl(root[n].dir);
        } else if e.Write? {
          assert Running(root, n);
          WrittenTracked(k, root[n]);
        } else {
          assert Running(root, n);
          CutTracked(k, root[n], e.kept, e.outputs, e.stop);
        }
      }
      PointwiseKeepsInv(k, root, s);
    }
  }

  lemma {:induction false} ExtendsRefl(d: Dir)
    ensures Extends(d, d)
  {
  }

  lemma {:induction false} ExtendsTrans(d: Dir, e: Dir, f: Dir)
    requires Extends(d, e) && Extends(e, f)
    ensures Extends(d, f)
  {
  }

  lemma {:induction false} RunKeepsInv(k: Codec, root: CellRoot, events: seq<Event>)
    requires Inv(k, root) && Possible(k, root, events)
    ensures Inv(k, Run(k, root, events)) && TreeExtends(root, Run(k, root, events))
    decreases |events|
  {
    hide Step, Inv, Enabled, Extends;
    if events == [] {
      forall n | n in root { ExtendsRefl(root[n].dir); }
    } else {
      var s := Step(k, root, events[0]);
      StepKeepsInv(k, root, events[0]);
      RunKeepsInv(k, s, events[1..]);
      var t := Run(k, s, events[1..]);
      forall n | n in root
        ensures n in t && Extends(root[n].dir, t[n].dir)
      {
        ExtendsTrans(root[n].dir, s[n].dir, t[n].dir);
      }
    }
  }

  lemma {:induction false} EmptyInv(k: Codec)
    ensures Inv(k, map[])
  {
    var root: CellRoot := map[];
    assert |root| == 0;
  }

  // ----- Safety over whole runs -----

  /** In every state any run can reach: directories are numbered 1 to n, the next name is free, and an attempt passes
      the audit exactly when its COMPLETE marker was written, up to the final newline. */
  lemma {:induction false} ReachableSafety(k: Codec, events: seq<Event>)
    requires Faithful(k) && Possible(k, map[], events)
    ensures var root := Run(k, map[], events);
            && Numbered(root) && AttemptName(|root| + 1) !in root
            && forall n :: n in root ==>
                 ValidHistory(k, root[n].history) && (Verify(k, root[n].dir) <==> MarkerWritten(k, root[n].history))
  {
    hide Verify, Numbered, AttemptName, DirOf, MarkerWritten, ValidHistory, Faithful;
    EmptyInv(k);
    RunKeepsInv(k, map[], events);
    var root := Run(k, map[], events);
    NextNameIsFree(root);
    forall n | n in root
      ensures ValidHistory(k, root[n].history) && (Verify(k, root[n].dir) <==> MarkerWritten(k, root[n].history))
    {
      assert Tracked(k, root[n]);
      CrashSafety(k, root[n].history);
    }
  }

  /** Write-once: whatever happens next, every file keeps its name and text. */
  lemma {:induction false} NothingIsEverOverwritten(k: Codec, before: seq<Event>, after: seq<Event>)
    requires Possible(k, map[], before) && Possible(k, Run(k, map[], before), after)
    ensures TreeExtends(Run(k, map[], before), Run(k, Run(k, map[], before), after))
  {
    hide Inv, TreeExtends;
    EmptyInv(k);
    RunKeepsInv(k, map[], before);
    RunKeepsInv(k, Run(k, map[], before), after);
  }

  lemma {:induction false} VerifyMonotone(k: Codec, d: Dir, e: Dir)
    requires Extends(d, e) && Verify(k, d)
    ensures Verify(k, e)
  {
    forall p | p in PayloadsOf(k.parse(d["manifest.json"]).value)
      ensures PayloadIntact(k, e, p)
    {
      assert PayloadIntact(k, d, p);
    }
  }

  lemma {:induction false} PlanMonotone(k: Codec, d: Dir, e: Dir)
    requires Extends(d, e) && PlanIn(k, d).Some?
    ensures PlanIn(k, e) == PlanIn(k, d)
  {
  }

  /** Growing the tree keeps every skip and every finished cell. */
  lemma {:induction false} OutcomesMonotone(k: Codec, r: CellRoot, s: CellRoot, a: Args)
    requires TreeExtends(r, s)
    ensures EarlyReturn(k, r, a) ==> EarlyReturn(k, s, a)
    ensures Pending(k, s, a) ==> Pending(k, r, a)
  {
    hide Extends, Verify, PlanIn, SameInputs;
    forall n | n in r && Verify(k, r[n].dir) && PlanIn(k, r[n].dir).Some?
      ensures n in s && Verify(k, s[n].dir) && PlanIn(k, s[n].dir) == PlanIn(k, r[n].dir)
    {
      VerifyMonotone(k, r[n].dir, s[n].dir);
      PlanMonotone(k, r[n].dir, s[n].dir);
    }
    if EarlyReturn(k, r, a) {
      var n :| n in r && Verify(k, r[n].dir) && Matches(k, r[n].dir, a);
      assert n in s && Verify(k, s[n].dir) && Matches(k, s[n].dir, a);
    }
    if !Pending(k, r, a) {
      var n :| n in r && Verify(k, r[n].dir) && CountsAsDone(k, r[n].dir, a);
      assert n in s && Verify(k, s[n].dir) && CountsAsDone(k, s[n].dir, a);
    }
  }

  /** Once a verified matching attempt exists, running the cell again with the same arguments creates nothing, now or
      after any further run; and a cell that left the pending list never comes back. */
  lemma {:induction false} DoneIsFinal(k: Codec, root: CellRoot, events: seq<Event>, r: Recipe)
    requires Inv(k, root) && Possible(k, root, events)
    ensures EarlyReturn(k, root, r.args) ==>
              AfterBegin(k, Run(k, root, events), r) == Run(k, root, events)
    ensures Pending(k, Run(k, root, events), r.args) ==> Pending(k, root, r.args)
  {
    hide Inv, TreeExtends, EarlyReturn, Pending;
    RunKeepsInv(k, root, events);
    OutcomesMonotone(k, root, Run(k, root, events), r.args);
  }

  // ----- An uninterrupted session -----

  function Writes(n: nat): seq<Event> { seq(n, _ => Write) }

  lemma {:induction false} WritesUnroll(n: nat)
    requires n > 0
    ensures Writes(n) != [] && Writes(n)[0] == Write && Writes(n)[1..] == Writes(n - 1)
  {
  }

  lemma NoWrites()
    ensures Writes(0) == []
  {
  }

  lemma {:induction false} WritesWhenIdle(k: Codec, root: CellRoot, n: nat)
    requires Idle(root)
    ensures Possible(k, root, Writes(n)) && Run(k, root, Writes(n)) == root
    decreases n
  {
    if n > 0 {
      WritesUnroll(n);
      assert Enabled(k, root, Write);
      assert Step(k, root, Write) == root;
      WritesWhenIdle(k, root, n - 1);
    }
  }

  /** A running attempt that is left alone makes its remaining writes and nothing else changes. */
  lemma {:induction false} FinishRunning(k: Codec, root: CellRoot, name: string)
    requires Inv(k, root) && Running(root, name) && root[name].history.written < 11
    ensures var m := 11 - root[name].history.written;
            && Possible(k, root, Writes(m))
            && var s := Run(k, root, Writes(m));
               && Inv(k, s) && Idle(s) && s.Keys == root.Keys
               && s[name].history == root[name].history.(written := 11)
    decreases 11 - root[name].history.written
  {
    hide Inv, Step, Enabled, Idle, Writes;
    var m := 11 - root[name].history.written;
    WritesUnroll(m);
    RunningIsEnabled(k, root);
    StepKeepsInv(k, root, Write);
    var s := Step(k, root, Write);
    OneWrite(k, root, name);
    if m == 1 {
      NoWrites();
    } else {
      FinishRunning(k, s, name);
    }
  }

  lemma {:induction false} RunningIsEnabled(k: Codec, root: CellRoot)
    requires Inv(k, root)
    ensures Enabled(k, root, Write)
  {
    hide ValidRecipe, DirOf;
    forall n | Running(root, n)
      ensures ValidRecipe(root[n].history.recipe) && root[n].history.written < 11
    {
      assert Tracked(k, root[n]);
    }
  }

  lemma {:induction false} OneWrite(k: Codec, root: CellRoot, name: string)
    requires Inv(k, root) && Running(root, name) && Enabled(k, root, Write)
    ensures var s := Step(k, root, Write);
            && s.Keys == root.Keys
            && s[name].history == root[name].history.(written := root[name].history.written + 1)
            && (s[name].running <==> s[name].history.written < 11)
            && (!s[name].running ==> Idle(s))
  {
    hide NameAt, TextAt, DirOf;
    assert Tracked(k, root[name]);
    WrittenTracked(k, root[name]);
    NotYetThere(k, root[name].history.recipe, root[name].history.written, root[name].history.written) by {
      assert ValidHistory(k, root[name].history);
    }
    var s := Step(k, root, Write);
    WrittenRunning(k, root[name]);
    forall n | n in s && s[n].running
      ensures n == name
    {
      assert Running(root, n);
    }
  }

  lemma {:induction false} WrittenRunning(k: Codec, a: Attempt)
    requires Tracked(k, a) && a.running
    ensures Written(k, a).running <==> a.history.written + 1 < 11
  {
    hide NameAt, TextAt;
    NotYetThere(k, a.history.recipe, a.history.written, a.history.written);
  }

  /** One call of the runner that nothing interrupts. */
  function Session(r: Recipe): seq<Event> { [Begin(r)] + Writes(11) }

  lemma {:induction false} SessionShape(r: Recipe)
    ensures Session(r) != [] && Session(r)[0] == Begin(r) && Session(r)[1..] == Writes(11)
  {
  }

  /** What an uninterrupted session does: nothing when it may skip, otherwise one new attempt, complete and verified,
      that both resuming and the pending list recognise by the recorded plan. */
  lemma {:induction false} SessionOutcome(k: Codec, root: CellRoot, r: Recipe)
    requires Faithful(k) && Inv(k, root) && Idle(root) && ValidRecipe(r)
    ensures Possible(k, root, Session(r))
    ensures var s := Run(k, root, Session(r));
            && Inv(k, s) && Idle(s) && TreeExtends(root, s)
            && EarlyReturn(k, s, r.args)
            && (EarlyReturn(k, root, r.args) ==> s == root)
            && (!EarlyReturn(k, root, r.args) ==>
                  var name := AttemptName(|root| + 1);
                  && name !in root && s.Keys == root.Keys + {name} && |s| == |root| + 1
                  && s[name].history == SoFar(r, 11) && Verify(k, s[name].dir)
                  && (r.args.mode == "hardware" ==> !Pending(k, s, r.args)))
  {
    hide EarlyReturn, Pending, Inv, Idle, TreeExtends, ValidRecipe, AfterBegin, AttemptName, Faithful, Session, Writes,
      Verify;
    SessionShape(r);
    var s1 := AfterBegin(k, root, r);
    BeginKeepsInv(k, root, r);
    if EarlyReturn(k, root, r.args) {
      SkippedBegin(k, root, r);
      WritesWhenIdle(k, root, 11);
    } else {
      var name := AttemptName(|root| + 1);
      NextNameOf(k, root);
      StartedAttempt(k, root, r, s1, name);
      FinishRunning(k, s1, name);
      var s := Run(k, s1, Writes(11));
      FinishedAttempt(k, s, name, r);
      OneMore(root, s, name);
    }
    RunKeepsInv(k, root, Session(r));
  }

  lemma {:induction false} NextNameOf(k: Codec, root: CellRoot)
    requires Inv(k, root)
    ensures AttemptName(|root| + 1) !in root
  {
    NextNameIsFree(root);
  }

  lemma {:induction false} OneMore(root: CellRoot, s: CellRoot, name: string)
    requires name !in root && s.Keys == root.Keys + {name}
    ensures |s| == |root| + 1
  {
    assert |s| == |s.Keys| && |root| == |root.Keys|;
  }

  lemma {:induction false} SkippedBegin(k: Codec, root: CellRoot, r: Recipe)
    requires EarlyReturn(k, root, r.args)
    ensures AfterBegin(k, root, r) == root
  {
  }

  lemma {:induction false} StartedAttempt(k: Codec, root: CellRoot, r: Recipe, s: CellRoot, name: string)
    requires s == root[name := Attempt(map[], SoFar(r, 0), true)]
    ensures Running(s, name) && s[name].history == SoFar(r, 0) && s.Keys == root.Keys + {name}
  {
  }

  /** A finished attempt verifies and its plan is the one of its arguments. */
  lemma {:induction false} FinishedAttempt(k: Codec, s: CellRoot, name: string, r: Recipe)
    requires Faithful(k) && Inv(k, s) && name in s && s[name].history == SoFar(r, 11)
    ensures Verify(k, s[name].dir) && EarlyReturn(k, s, r.args)
    ensures r.args.mode == "hardware" ==> !Pending(k, s, r.args)
  {
    hide DirOf, TextAt, NameAt, ValidRecipe, Verify, Numbered;
    assert Tracked(k, s[name]);
    CrashSafety(k, s[name].history);
    RecordedPlan(k, s[name].history);
    assert Matches(k, s[name].dir, r.args);
  }

  /** A verified attempt still holds the plan it was started with. */
  lemma {:induction false} RecordedPlan(k: Codec, h: History)
    requires Faithful(k) && ValidHistory(k, h) && h.written > 0
    ensures PlanIn(k, DirOf(k, h)) == Some(PlanOf(h.recipe.cell, h.recipe.args))
  {
    hide DirOf, TextAt, NameAt;
    FilesOf(k, h);
    LastNames();
    CompleteMarker(k, h.recipe);
  }

  // ----- The pending list against the runner -----

  /** Completing a pending cell takes it off the list exactly when the runner does not skip it. */
  lemma {:induction false} StaysPendingExactlyWhenSkipped(k: Codec, root: CellRoot, r: Recipe)
    requires Faithful(k) && Inv(k, root) && Idle(root) && ValidRecipe(r)
    requires r.args.mode == "hardware" && Pending(k, root, r.args)
    ensures Possible(k, root, Session(r))
    ensures Pending(k, Run(k, root, Session(r)), r.args) <==> EarlyReturn(k, root, r.args)
  {
    hide EarlyReturn, Pending, Inv, Idle, TreeExtends, Faithful;
    SessionOutcome(k, root, r);
  }

  /** The recorded plan agrees with `a` on everything both views compare. */
  predicate Alike(b: Args, a: Args) {
    && b.implementation == a.implementation && b.candidate == a.candidate
    && (a.expectedHead == "" || b.expectedHead == a.expectedHead)
  }

  /** A verified attempt, seen by resuming and by the pending list through the arguments it was started with. */
  lemma {:induction false} VerifiedIsRecognised(k: Codec, root: CellRoot, n: string, a: Args)
    requires Faithful(k) && Inv(k, root) && n in root && Verify(k, root[n].dir)
    ensures var b := root[n].history.recipe.args;
            && (Matches(k, root[n].dir, a) <==> Alike(b, a) && b.binary == a.binary)
            && (CountsAsDone(k, root[n].dir, a) <==> Alike(b, a) && b.mode == "hardware")
  {
    hide DirOf, TextAt, NameAt, Verify, Numbered, ValidRecipe, Faithful;
    assert Tracked(k, root[n]);
    CrashSafety(k, root[n].history);
    RecordedPlan(k, root[n].history);
  }

  ghost predicate VerifiedAs(k: Codec, root: CellRoot, n: string, a: Args) {
    n in root && Verify(k, root[n].dir) && Alike(root[n].history.recipe.args, a)
  }

  /** Both views in terms of the recorded arguments: resuming looks at the binary, the pending list at the mode. */
  lemma {:induction false} ViewsOfTheCell(k: Codec, root: CellRoot, a: Args)
    requires Faithful(k) && Inv(k, root)
    ensures EarlyReturn(k, root, a) <==>
              exists n :: VerifiedAs(k, root, n, a) && root[n].history.recipe.args.binary == a.binary
    ensures Pending(k, root, a) <==>
              !exists n :: VerifiedAs(k, root, n, a) && root[n].history.recipe.args.mode == "hardware"
  {
    hide Inv, Verify, Matches, CountsAsDone, Faithful, Alike;
    forall n | n in root && Verify(k, root[n].dir)
      ensures var b := root[n].history.recipe.args;
              && (Matches(k, root[n].dir, a) <==> Alike(b, a) && b.binary == a.binary)
              && (CountsAsDone(k, root[n].dir, a) <==> Alike(b, a) && b.mode == "hardware")
    {
      VerifiedIsRecognised(k, root, n, a);
    }
    if EarlyReturn(k, root, a) {
      var n :| n in root && Verify(k, root[n].dir) && Matches(k, root[n].dir, a);
      assert VerifiedAs(k, root, n, a);
    }
    if !Pending(k, root, a) {
      var n :| n in root && Verify(k, root[n].dir) && CountsAsDone(k, root[n].dir, a);
      assert VerifiedAs(k, root, n, a);
    }
  }

  /** Arguments the two views of `a` judge alike. */
  predicate SameVerdict(b: Args, a: Args) { Alike(b, a) ==> (b.mode == "hardware" <==> b.binary == a.binary) }

  /** Both views agree when each recorded plan is judged alike; in particular when every plan is in hardware mode with
      the binary of `a`, whatever its head, implementation and candidate. */
  lemma {:induction false} ViewsAgree(k: Codec, root: CellRoot, a: Args)
    requires Faithful(k) && Inv(k, root)
    requires forall n :: n in root ==> SameVerdict(root[n].history.recipe.args, a)
    ensures EarlyReturn(k, root, a) <==> !Pending(k, root, a)
  {
    hide Inv, Verify, Faithful, EarlyReturn, Pending, Alike;
    ViewsOfTheCell(k, root, a);
  }

  /** Only a verified attempt of the same binary in another mode keeps a completed cell on the list. */
  predicate NotBlocking(b: Args, a: Args) { Alike(b, a) && b.binary == a.binary ==> b.mode == "hardware" }

  /** Completing every pending cell of a campaign leaves none pending, whatever heads, implementations, candidates and
      binaries were used before, as long as the recorded plans with the binary of `a` are hardware plans. */
  lemma {:induction false} CompletingAllPendingEmptiesTheList(k: Codec, roots: seq<CellRoot>, recipes: seq<Recipe>,
                                                              a: Args)
    requires Faithful(k) && a.mode == "hardware" && |recipes| == |roots|
    requires forall i :: 0 <= i < |roots| ==>
               && Inv(k, roots[i]) && Idle(roots[i]) && ValidRecipe(recipes[i]) && recipes[i].args == a
               && forall n :: n in roots[i] ==> NotBlocking(roots[i][n].history.recipe.args, a)
    ensures forall i :: 0 <= i < |roots| && Pending(k, roots[i], a) ==>
              Possible(k, roots[i], Session(recipes[i]))
              && !Pending(k, Run(k, roots[i], Session(recipes[i])), a)
  {
    hide EarlyReturn, Pending, Inv, Idle, Faithful, ValidRecipe, Session, Possible, Alike, Verify;
    forall i | 0 <= i < |roots| && Pending(k, roots[i], a)
      ensures Possible(k, roots[i], Session(recipes[i]))
              && !Pending(k, Run(k, roots[i], Session(recipes[i])), a)
    {
      ViewsOfTheCell(k, roots[i], a);
      StaysPendingExactlyWhenSkipped(k, roots[i], recipes[i]);
    }
  }

  // ----- Over all runs -----

  /** Every start of the run used arguments from `used`. */
  ghost predicate AllUse(events: seq<Event>, used: iset<Args>) {
    forall i :: 0 <= i < |events| && events[i].Begin? ==> events[i].recipe.args in used
  }

  ghost predicate RecordedWith(root: CellRoot, used: iset<Args>) {
    forall n :: n in root ==> root[n].history.recipe.args in used
  }

  lemma {:induction false} RunRecordsArgs(k: Codec, root: CellRoot, events: seq<Event>, used: iset<Args>)
    requires Inv(k, root) && Possible(k, root, events) && AllUse(events, used) && RecordedWith(root, used)
    ensures RecordedWith(Run(k, root, events), used)
    decreases |events|
  {
    hide Inv, Enabled;
    if events != [] {
      var s := Step(k, root, events[0]);
      StepKeepsInv(k, root, events[0]);
      StepRecordsArgs(k, root, events[0], used);
      assert AllUse(events[1..], used);
      RunRecordsArgs(k, s, events[1..], used);
    }
  }

  lemma {:induction false} StepRecordsArgs(k: Codec, root: CellRoot, e: Event, used: iset<Args>)
    requires Inv(k, root) && Enabled(k, root, e) && RecordedWith(root, used)
    requires e.Begin? ==> e.recipe.args in used
    ensures RecordedWith(Step(k, root, e), used)
  {
    hide Written, CutOff, AttemptName, EarlyReturn;
    StepKeepsInv(k, root, e);
    var s := Step(k, root, e);
    forall n | n in s
      ensures s[n].history.recipe.args in used
    {
      if n in root {
        assert s[n].history.recipe == root[n].history.recipe;
      }
    }
  }

  /** A recipe exists for every cell and all arguments. */
  function PlainRecipe(cell: string, a: Args): Recipe {
    Recipe(cell, a, seq(8, _ => ""), PAYLOAD_NAMES)
  }

  lemma {:induction false} PlainRecipeValid(cell: string, a: Args)
    ensures ValidRecipe(PlainRecipe(cell, a))
  {
    forall i, j | 0 <= i < j < 9
      ensures PAYLOAD_NAMES[i] != PAYLOAD_NAMES[j]
    {
      PayloadNamesDistinct(i, j);
    }
  }

  /** What one uninterrupted session with arguments `b` in an empty tree means for `a`. */
  lemma {:induction false} FirstSession(k: Codec, r: Recipe, a: Args)
    requires Faithful(k) && ValidRecipe(r)
    ensures Possible(k, map[], Session(r))
    ensures var root := Run(k, map[], Session(r));
            && Inv(k, root) && Idle(root)
            && (EarlyReturn(k, root, a) <==> Alike(r.args, a) && r.args.binary == a.binary)
            && (Pending(k, root, a) <==> !(Alike(r.args, a) && r.args.mode == "hardware"))
  {
    hide Inv, EarlyReturn, Pending, Faithful, ValidRecipe, Alike, AttemptName, Verify, Session, TreeExtends;
    var nothing: CellRoot := map[];
    EmptyInv(k);
    NothingYet(k, r.args);
    SessionOutcome(k, nothing, r);
    var root := Run(k, nothing, Session(r));
    var name := AttemptName(|nothing| + 1);
    assert forall n :: n in root ==> n == name;
    ViewsOfTheCell(k, root, a);
    assert VerifiedAs(k, root, name, a) <==> Alike(r.args, a);
  }

  lemma {:induction false} NothingYet(k: Codec, a: Args)
    ensures Idle(map[]) && !EarlyReturn(k, map[], a)
  {
  }

  /** The exact condition.  For runs whose starts use arguments from `used`: skipping for `a` and having left the
      pending list for `a` coincide in every reachable state if and only if each of those arguments that names the
      implementation, candidate and head of `a` is in hardware mode exactly when it has the binary of `a`. */
  lemma {:induction false} ViewsAgreeExactlyWhen(k: Codec, used: iset<Args>, a: Args)
    requires Faithful(k)
    ensures (forall events :: Possible(k, map[], events) && AllUse(events, used) ==>
               var root := Run(k, map[], events);
               EarlyReturn(k, root, a) <==> !Pending(k, root, a))
            <==> forall b :: b in used ==> SameVerdict(b, a)
  {
    hide Inv, EarlyReturn, Pending, Faithful, ValidRecipe, SameVerdict;
    EmptyInv(k);
    if forall b :: b in used ==> SameVerdict(b, a) {
      forall events | Possible(k, map[], events) && AllUse(events, used)
        ensures var root := Run(k, map[], events);
                EarlyReturn(k, root, a) <==> !Pending(k, root, a)
      {
        RunKeepsInv(k, map[], events);
        RunRecordsArgs(k, map[], events, used);
        ViewsAgree(k, Run(k, map[], events), a);
      }
    } else {
      var b :| b in used && !SameVerdict(b, a);
      var r := PlainRecipe("cell", b);
      PlainRecipeValid("cell", b);
      FirstSession(k, r, a);
      assert AllUse(Session(r), used);
      DifferentVerdict(b, a);
    }
  }

  lemma {:induction false} DifferentVerdict(b: Args, a: Args)
    requires !SameVerdict(b, a)
    ensures Alike(b, a) && (b.mode == "hardware" <==> b.binary != a.binary)
  {
  }

  /** One failing family: a verified attempt in another mode with the same binary makes the hardware run skip, so the
      cell stays on the pending list however often it is run. */
  lemma {:induction false} MockAttemptBlocksHardware(k: Codec, root: CellRoot, name: string, r: Recipe, n: nat)
    requires Faithful(k) && Inv(k, root) && ValidRecipe(r) && r.args.mode == "hardware"
    requires VerifiedAs(k, root, name, r.args) && root[name].history.recipe.args.binary == r.args.binary
    requires forall m :: VerifiedAs(k, root, m, r.args) ==> root[m].history.recipe.args.mode != "hardware"
    ensures Pending(k, root, r.args)
    ensures Possible(k, root, Repeated(r, n)) && Run(k, root, Repeated(r, n)) == root
  {
    hide Inv, EarlyReturn, Pending, Faithful, ValidRecipe, Verify;
    ViewsOfTheCell(k, root, r.args);
    SkippedForEver(k, root, r, n);
  }

  /** The other: after a rebuild the cell is off the pending list, although the runner would still run it, and does so
      from any idle state: a new attempt is made. */
  lemma {:induction false} RebuiltBinaryIsNotPending(k: Codec, root: CellRoot, name: string, r: Recipe)
    requires Faithful(k) && Inv(k, root) && Idle(root) && ValidRecipe(r)
    requires VerifiedAs(k, root, name, r.args) && root[name].history.recipe.args.mode == "hardware"
    requires forall m :: VerifiedAs(k, root, m, r.args) ==> root[m].history.recipe.args.binary != r.args.binary
    ensures !Pending(k, root, r.args) && !EarlyReturn(k, root, r.args)
    ensures Possible(k, root, Session(r)) && |Run(k, root, Session(r))| == |root| + 1
  {
    hide Inv, EarlyReturn, Pending, Faithful, ValidRecipe, Verify, Session;
    ViewsOfTheCell(k, root, r.args);
    SessionOutcome(k, root, r);
  }

  /** Both families are reachable by one finished session: with another mode ... */
  lemma {:induction false} MockThenHardware(k: Codec, first: Recipe)
    requires Faithful(k) && ValidRecipe(first) && first.args.mode != "hardware"
    ensures Possible(k, map[], Session(first))
    ensures var root, hardware := Run(k, map[], Session(first)), first.args.(mode := "hardware");
            EarlyReturn(k, root, hardware) && Pending(k, root, hardware)
  {
    hide Inv, EarlyReturn, Pending, Faithful, ValidRecipe;
    FirstSession(k, first, first.args.(mode := "hardware"));
  }

  /** ... or with another binary. */
  lemma {:induction false} HardwareThenRebuilt(k: Codec, first: Recipe, binary: string)
    requires Faithful(k) && ValidRecipe(first) && first.args.mode == "hardware" && first.args.binary != binary
    ensures Possible(k, map[], Session(first))
    ensures var root, rebuilt := Run(k, map[], Session(first)), first.args.(binary := binary);
            !EarlyReturn(k, root, rebuilt) && !Pending(k, root, rebuilt)
  {
    hide Inv, EarlyReturn, Pending, Faithful, ValidRecipe;
    FirstSession(k, first, first.args.(binary := binary));
  }

  function Repeated(r: Recipe, n: nat): seq<Event> { seq(n, _ => Begin(r)) }

  lemma {:induction false} SkippedForEver(k: Codec, root: CellRoot, r: Recipe, n: nat)
    requires EarlyReturn(k, root, r.args) && ValidRecipe(r)
    ensures Possible(k, root, Repeated(r, n)) && Run(k, root, Repeated(r, n)) == root
    decreases n
  {
    hide EarlyReturn, ValidRecipe, AfterBegin;
    if n > 0 {
      assert Repeated(r, n)[0] == Begin(r) && Repeated(r, n)[1..] == Repeated(r, n - 1);
      SkippedBegin(k, root, r);
      assert Step(k, root, Begin(r)) == root;
      SkippedForEver(k, root, r, n - 1);
    }
  }
}
