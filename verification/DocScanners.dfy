/** The two independent scanners of the module documents: the structural linter, which tracks fences and sections, and
    the progress counter, which only remembers whether it is inside a task list.  A document is a list of lines, each
    already classified; titles are real strings and are matched as the programs match them. */
module DocScanners {
  import opened Options

  datatype TaskId = TaskId(prefix: string, digits: string)

  /** One to six hash marks. */
  type Level = n: nat | 1 <= n <= 6 witness 1

  datatype Line =
    | Fence
    | Heading(level: Level, title: string)
    | Bullet(id: TaskId, category: Option<string>)
    | Prose
    | Blank

  // ----- Title matching -----

  function Lower(c: char): char { if 'A' <= c <= 'Z' then c - 'A' + 'a' else c }

  predicate IsWord(c: char) { 'a' <= c <= 'z' || 'A' <= c <= 'Z' || '0' <= c <= '9' || c == '_' }

  /** `text` occurs at position `i`, ignoring case. */
  predicate At(title: string, i: nat, text: string) {
    i + |text| <= |title| && forall k :: 0 <= k < |text| ==> Lower(title[i + k]) == text[k]
  }

  /** A word boundary between positions i-1 and i. */
  predicate Boundary(title: string, i: nat)
    requires i <= |title|
  {
    (i > 0 && IsWord(title[i - 1])) != (i < |title| && IsWord(title[i]))
  }

  /** The linter's registry titles: "Open tasks" as a whole word at the start, or "follow-ups" as a word anywhere. */
  predicate IsRegistry(title: string) {
    || (At(title, 0, "open tasks") && Boundary(title, 10))
    || exists i :: 0 <= i <= |title| && At(title, i, "follow-ups") && Boundary(title, i) && Boundary(title, i + 10)
  }

  /** The counter's opening titles: a plain prefix. */
  predicate OpensList(title: string) { At(title, 0, "open tasks") || At(title, 0, "backend-repo follow-ups") }

  // ----- What the title tests mean -----

  /** `c` is the letter `lower` in either case. */
  predicate CaseOf(c: char, lower: char) { c == lower || ('a' <= lower <= 'z' && c as int + 32 == lower as int) }

  /** The title reads `text` at position `i`, in any casing. */
  ghost predicate Reads(title: string, i: nat, text: string) {
    i + |text| <= |title| && forall k :: 0 <= k < |text| ==> CaseOf(title[i + k], text[k])
  }

  /** A title that begins with one of the two list headings. */
  ghost predicate OpeningTitle(title: string) {
    Reads(title, 0, "open tasks") || Reads(title, 0, "backend-repo follow-ups")
  }

  /** Digits, capital letters, the underscore and small letters, by their codes. */
  predicate WordChar(c: char) {
    var code := c as int;
    48 <= code <= 57 || 65 <= code <= 90 || code == 95 || 97 <= code <= 122
  }

  /** No word goes on across position `i`, seen from the left and from the right. */
  ghost predicate WordStarts(title: string, i: nat)
    requires i <= |title|
  {
    i == 0 || !WordChar(title[i - 1])
  }

  ghost predicate WordEnds(title: string, i: nat)
    requires i <= |title|
  {
    i == |title| || !WordChar(title[i])
  }

  /** A title that begins with the words "open tasks" or contains the word "follow-ups". */
  ghost predicate RegistryTitle(title: string) {
    || (Reads(title, 0, "open tasks") && WordEnds(title, 10))
    || exists i: nat :: Reads(title, i, "follow-ups") && WordStarts(title, i) && WordEnds(title, i + 10)
  }

  lemma {:induction false} LowerIsCaseOf(c: char, lower: char)
    requires !('A' <= lower <= 'Z')
    ensures Lower(c) == lower <==> CaseOf(c, lower)
  {
  }

  lemma {:induction false} AtMeaning(title: string, i: nat, text: string)
    requires forall k :: 0 <= k < |text| ==> !('A' <= text[k] <= 'Z')
    ensures At(title, i, text) <==> Reads(title, i, text)
  {
    hide Lower, CaseOf;
    if i + |text| <= |title| {
      forall k | 0 <= k < |text|
        ensures Lower(title[i + k]) == text[k] <==> CaseOf(title[i + k], text[k])
      {
        LowerIsCaseOf(title[i + k], text[k]);
      }
    }
  }

  lemma HeadingsAreLower()
    ensures forall k :: 0 <= k < 10 ==> !('A' <= "open tasks"[k] <= 'Z') && !('A' <= "follow-ups"[k] <= 'Z')
    ensures forall k :: 0 <= k < 23 ==> !('A' <= "backend-repo follow-ups"[k] <= 'Z')
  {
  }

  /** The counter opens exactly the titles that begin with one of its two headings, in any casing. */
  lemma {:induction false} OpensListMeaning(title: string)
    ensures OpensList(title) <==> OpeningTitle(title)
  {
    hide At, Reads;
    HeadingsAreLower();
    AtMeaning(title, 0, "open tasks");
    AtMeaning(title, 0, "backend-repo follow-ups");
  }

  lemma {:induction false} WordCharsMeaning(c: char)
    ensures IsWord(c) <==> WordChar(c)
  {
  }

  /** At both ends of the word "follow-ups" a boundary is the end of a word. */
  lemma {:induction false} WordBoundary(title: string, i: nat)
    requires i <= |title|
    ensures i < |title| && IsWord(title[i]) ==> (Boundary(title, i) <==> WordStarts(title, i))
    ensures i > 0 && IsWord(title[i - 1]) ==> (Boundary(title, i) <==> WordEnds(title, i))
  {
    hide IsWord, WordChar;
    if i < |title| {
      WordCharsMeaning(title[i]);
    }
    if i > 0 {
      WordCharsMeaning(title[i - 1]);
    }
  }

  lemma {:induction false} ReadsWord(title: string, i: nat)
    ensures Reads(title, i, "follow-ups") ==> IsWord(title[i]) && IsWord(title[i + 9])
    ensures Reads(title, i, "open tasks") ==> IsWord(title[i + 9])
  {
    var text, open' := "follow-ups", "open tasks";
    assert text[0] == 'f' && text[9] == 's' && open'[9] == 's';
    if Reads(title, i, text) {
      assert CaseOf(title[i + 0], text[0]) && CaseOf(title[i + 9], text[9]);
    }
    if Reads(title, i, open') {
      assert CaseOf(title[i + 9], open'[9]);
    }
  }

  /** The linter's registry titles, in any casing. */
  lemma {:induction false} RegistryMeaning(title: string)
    ensures IsRegistry(title) <==> RegistryTitle(title)
  {
    hide At, Reads, Boundary, WordStarts, WordEnds, IsWord;
    HeadingsAreLower();
    AtMeaning(title, 0, "open tasks");
    ReadsFits(title, 0, "open tasks");
    ReadsWord(title, 0);
    if Reads(title, 0, "open tasks") {
      WordBoundary(title, 10);
    }
    forall i: nat | i <= |title|
      ensures At(title, i, "follow-ups") <==> Reads(title, i, "follow-ups")
      ensures Reads(title, i, "follow-ups") ==>
                i + 10 <= |title| && (Boundary(title, i) <==> WordStarts(title, i))
                && (Boundary(title, i + 10) <==> WordEnds(title, i + 10))
    {
      AtMeaning(title, i, "follow-ups");
      ReadsFits(title, i, "follow-ups");
      ReadsWord(title, i);
      if Reads(title, i, "follow-ups") {
        WordBoundary(title, i);
        WordBoundary(title, i + 10);
      }
    }
    forall i: nat | Reads(title, i, "follow-ups")
      ensures i <= |title|
    {
      ReadsFits(title, i, "follow-ups");
    }
  }

  lemma {:induction false} ReadsFits(title: string, i: nat, text: string)
    ensures Reads(title, i, text) ==> i + |text| <= |title|
  {
  }

  /** Whatever follows, the two headings of the module documents open a list. */
  lemma {:induction false} HeadingsOpen(rest: string)
    ensures OpensList("Open tasks" + rest) && OpensList("Backend-repo follow-ups" + rest)
  {
    hide OpensList;
    var a, b := "Open tasks", "Backend-repo follow-ups";
    var x, y := "open tasks", "backend-repo follow-ups";
    assert a[0] == 'O' && b[0] == 'B' && x[0] == 'o' && y[0] == 'b' && a[1..] == x[1..] && b[1..] == y[1..];
    forall k | 0 <= k < 10
      ensures CaseOf((a + rest)[0 + k], x[k])
    {
      assert k > 0 ==> a[k] == a[1..][k - 1] && x[k] == x[1..][k - 1];
    }
    forall k | 0 <= k < 23
      ensures CaseOf((b + rest)[0 + k], y[k])
    {
      assert k > 0 ==> b[k] == b[1..][k - 1] && y[k] == y[1..][k - 1];
    }
    assert Reads(a + rest, 0, x) && Reads(b + rest, 0, y);
    OpensListMeaning(a + rest);
    OpensListMeaning(b + rest);
  }

  // ----- The linter's parser -----

  datatype HeadingAt = HeadingAt(level: Level, title: string, line: nat)

  datatype TaskAt = TaskAt(id: TaskId, line: nat, category: Option<string>, section: Option<string>,
                           subsection: Option<string>)

  datatype Document = Document(headings: seq<HeadingAt>, tasks: seq<TaskAt>, firstContent: nat, body: seq<nat>)

  datatype Parser = Parser(doc: Document, inFence: bool, section: Option<string>, subsection: Option<string>)

  const START := Parser(Document([], [], 0, []), false, None, None)

  /** One line of the parser; `n` counts from one. */
  function Feed(p: Parser, line: Line, n: nat): Parser {
    var d := if line != Blank && p.doc.firstContent == 0 then p.doc.(firstContent := n) else p.doc;
    if line.Fence? then p.(doc := d, inFence := !p.inFence)
    else if p.inFence then p.(doc := d)
    else match line
      case Heading(level, title) =>
        var d' := d.(headings := d.headings + [HeadingAt(level, title, n)]);
        if level <= 2 then Parser(d', false, if level == 2 then Some(title) else None, None)
        else if level == 3 then p.(doc := d', subsection := Some(title))
        else p.(doc := d')
      case Bullet(id, category) =>
        p.(doc := d.(body := d.body + [n],
                     tasks := d.tasks + [TaskAt(id, n, category, p.section, p.subsection)]))
      case Prose => p.(doc := d.(body := d.body + [n]))
      case _ => p.(doc := d)
  }

  function Parsed(lines: seq<Line>): Parser {
    if lines == [] then START else Feed(Parsed(lines[..|lines| - 1]), lines[|lines| - 1], |lines|)
  }

  /** The parse loop, with its variables updated line by line. */
  method Parse(lines: seq<Line>) returns (doc: Document)
    ensures doc == Parsed(lines).doc
  {
    var headings: seq<HeadingAt>, tasks: seq<TaskAt>, body: seq<nat> := [], [], [];
    var firstContent := 0;
    var inFence := false;
    var section: Option<string>, subsection: Option<string> := None, None;
    for i := 0 to |lines|
      invariant Parser(Document(headings, tasks, firstContent, body), inFence, section, subsection)
             == Parsed(lines[..i])
    {
      assert lines[..i + 1][..i] == lines[..i];
      var line := lines[i];
      if line != Blank && firstContent == 0 {
        firstContent := i + 1;
      }
      if line.Fence? {
        inFence := !inFence;
        continue;
      }
      if inFence {
        continue;
      }
      if line.Heading? {
        headings := headings + [HeadingAt(line.level, line.title, i + 1)];
        if line.level <= 2 {
          section := if line.level == 2 then Some(line.title) else None;
          subsection := None;
        } else if line.level == 3 {
          subsection := Some(line.title);
        }
        continue;
      }
      if line != Blank {
        body := body + [i + 1];
      }
      if line.Bullet? {
        tasks := tasks + [TaskAt(line.id, i + 1, line.category, section, subsection)];
      }
    }
    assert lines[..|lines|] == lines;
    doc := Document(headings, tasks, firstContent, body);
  }

  // ----- The counter -----

  datatype Counter = Counter(inside: bool, found: set<TaskId>)

  function Count(c: Counter, line: Line): Counter {
    match line
    case Heading(level, title) =>
      if level == 2 then c.(inside := OpensList(title)) else c
    case Bullet(id, _) => if c.inside then c.(found := c.found + {id}) else c
    case _ => c
  }

  function Counted(lines: seq<Line>): Counter {
    if lines == [] then Counter(false, {}) else Count(Counted(lines[..|lines| - 1]), lines[|lines| - 1])
  }

  /** The scan with its single flag. */
  method OpenIds(lines: seq<Line>) returns (found: set<TaskId>)
    ensures found == Counted(lines).found
    ensures forall id :: id in found <==>
              exists i: nat :: EntryOf(lines, i, id) && LastSection(lines[..i]).Some?
                               && OpeningTitle(LastSection(lines[..i]).value)
  {
    hide OpeningTitle, LastSection;
    ghost var all := Counted(lines).found;
    forall id
      ensures id in all <==> exists i: nat :: EntryOf(lines, i, id) && LastSection(lines[..i]).Some?
                                              && OpeningTitle(LastSection(lines[..i]).value)
    {
      CountedUnderHeadings(lines, id);
    }
    found := {};
    var inside := false;
    for i := 0 to |lines|
      invariant Counter(inside, found) == Counted(lines[..i])
    {
      assert lines[..i + 1][..i] == lines[..i];
      var line := lines[i];
      if line.Heading? && line.level == 2 && OpensList(line.title) {
        inside := true;
        continue;
      }
      if inside && line.Heading? && line.level == 2 {
        inside := false;
        continue;
      }
      if inside && line.Bullet? {
        found := found + {line.id};
      }
    }
    assert lines[..|lines|] == lines;
  }

  // ----- The linter's checks -----

  datatype Kind =
    | MissingTitle | TitleNotFirst | ExtraTitle | NoSummary
    | DuplicateTask | OutsideRegistry | NoBucket | WrongBucket

  datatype Error = Error(line: nat, kind: Kind)

  const CATEGORIES: seq<string> := ["Precision", "Completeness", "Uncategorized"]

  function OfLevel(hs: seq<HeadingAt>, level: Level): seq<HeadingAt> {
    if hs == [] then []
    else OfLevel(hs[..|hs| - 1], level) + if hs[|hs| - 1].level == level then [hs[|hs| - 1]] else []
  }

  predicate HasSummary(doc: Document, title: nat) {
    var sections := OfLevel(doc.headings, 2);
    exists i :: 0 <= i < |doc.body| && title < doc.body[i] && (sections == [] || doc.body[i] < sections[0].line)
  }

  function TitleErrors(doc: Document): seq<Error> {
    var titles := OfLevel(doc.headings, 1);
    if titles == [] then [Error(1, MissingTitle)]
    else
      (if titles[0].line != doc.firstContent then [Error(titles[0].line, TitleNotFirst)] else [])
      + seq(|titles| - 1, i requires 0 <= i < |titles| - 1 => Error(titles[i + 1].line, ExtraTitle))
      + if HasSummary(doc, titles[0].line) then [] else [Error(titles[0].line, NoSummary)]
  }

  function Expected(t: TaskAt): string { if t.category.Some? then t.category.value else "Uncategorized" }

  predicate Repeats(tasks: seq<TaskAt>, id: TaskId) { exists i :: 0 <= i < |tasks| && tasks[i].id == id }

  function ErrorsOfTask(earlier: seq<TaskAt>, t: TaskAt): seq<Error> {
    (if Repeats(earlier, t.id) then [Error(t.line, DuplicateTask)] else [])
    + if t.section.None? || !IsRegistry(t.section.value) then [Error(t.line, OutsideRegistry)]
      else if t.subsection.None? then [Error(t.line, NoBucket)]
      else if t.subsection.value !in CATEGORIES then []
      else if t.subsection.value != Expected(t) then [Error(t.line, WrongBucket)]
      else []
  }

  function TaskErrors(tasks: seq<TaskAt>): seq<Error> {
    if tasks == [] then []
    else
      var k := |tasks| - 1;
      TaskErrors(tasks[..k]) + ErrorsOfTask(tasks[..k], tasks[k])
  }

  /** The linter's shared error list. */
  class Linter {
    var errors: seq<Error>

    constructor ()
      ensures errors == []
    {
      errors := [];
    }

    method CheckTitle(doc: Document)
      modifies this
      ensures errors == old(errors) + TitleErrors(doc)
      ensures errors == old(errors) <==> CleanTitle(doc)
    {
      hide CleanTitle, TitleErrors;
      CleanTitleMeaning(doc);
      AppendTitleErrors(doc);
    }

    /** The checks in the order they are made. */
    method AppendTitleErrors(doc: Document)
      modifies this
      ensures errors == old(errors) + TitleErrors(doc)
    {
      hide OfLevel, HasSummary;
      var titles := OfLevel(doc.headings, 1);
      if titles == [] {
        errors := errors + [Error(1, MissingTitle)];
        return;
      }
      if titles[0].line != doc.firstContent {
        errors := errors + [Error(titles[0].line, TitleNotFirst)];
      }
      ghost var extra := seq(|titles| - 1, i requires 0 <= i < |titles| - 1 => Error(titles[i + 1].line, ExtraTitle));
      ghost var before := errors;
      for i := 1 to |titles|
        invariant errors == before + extra[..i - 1]
      {
        errors := errors + [Error(titles[i].line, ExtraTitle)];
      }
      assert extra[..|titles| - 1] == extra;
      if !HasSummary(doc, titles[0].line) {
        errors := errors + [Error(titles[0].line, NoSummary)];
      }
    }

    /** The task loop with its dictionary of first sightings. */
    method CheckTasks(doc: Document)
      modifies this
      ensures errors == old(errors) + TaskErrors(doc.tasks)
    {
      hide ErrorsOfTask, Repeats;
      var seen: map<TaskId, nat> := map[];
      NothingRepeats();
      for i := 0 to |doc.tasks|
        invariant errors == old(errors) + TaskErrors(doc.tasks[..i])
        invariant forall id :: id in seen <==> Repeats(doc.tasks[..i], id)
      {
        var t := doc.tasks[i];
        assert doc.tasks[..i + 1][..i] == doc.tasks[..i];
        assert doc.tasks[..i + 1] == doc.tasks[..i] + [t];
        SeenGrows(doc.tasks[..i], t);
        CheckTask(t, t.id in seen, doc.tasks[..i]);
        seen := if t.id in seen then seen else seen[t.id := t.line];
      }
      assert doc.tasks[..|doc.tasks|] == doc.tasks;
    }

    static lemma NothingRepeats()
      ensures forall id :: !Repeats([], id)
    {
    }

    /** One turn of the task loop. */
    method CheckTask(t: TaskAt, repeated: bool, ghost earlier: seq<TaskAt>)
      requires repeated <==> Repeats(earlier, t.id)
      modifies this
      ensures errors == old(errors) + ErrorsOfTask(earlier, t)
    {
      hide IsRegistry, Repeats;
      if repeated {
        errors := errors + [Error(t.line, DuplicateTask)];
      }
      if t.section.None? || !IsRegistry(t.section.value) {
        errors := errors + [Error(t.line, OutsideRegistry)];
        return;
      }
      if t.subsection.None? {
        errors := errors + [Error(t.line, NoBucket)];
        return;
      }
      if t.subsection.value in CATEGORIES && t.subsection.value != Expected(t) {
        errors := errors + [Error(t.line, WrongBucket)];
      }
    }

    static lemma {:induction false} SeenGrows(tasks: seq<TaskAt>, t: TaskAt)
      ensures forall id :: Repeats(tasks + [t], id) <==> Repeats(tasks, id) || id == t.id
    {
      forall id
        ensures Repeats(tasks + [t], id) <==> Repeats(tasks, id) || id == t.id
      {
        if Repeats(tasks, id) {
          var i :| 0 <= i < |tasks| && tasks[i].id == id;
          assert (tasks + [t])[i].id == id;
        }
        assert (tasks + [t])[|tasks|] == t;
      }
    }
  }

  // ----- What a clean task list means -----

  /** No errors from the task check: the ids are distinct, every task sits in a registry section and in a bucket, and
      the bucket is the one its tag asks for. */
  lemma {:induction false} CleanTasksMeaning(tasks: seq<TaskAt>)
    ensures TaskErrors(tasks) == [] <==>
              && (forall i, j :: 0 <= i < j < |tasks| ==> tasks[i].id != tasks[j].id)
              && (forall i :: 0 <= i < |tasks| ==> WellPlaced(tasks[i]))
  {
    hide WellPlaced, ErrorsOfTask;
    if tasks != [] {
      var k := |tasks| - 1;
      var front := tasks[..k];
      CleanTasksMeaning(front);
      TaskErrorMeaning(front, tasks[k]);
      assert tasks == front + [tasks[k]];
      if TaskErrors(tasks) == [] {
        assert |TaskErrors(front)| == 0 && |ErrorsOfTask(front, tasks[k])| == 0;
      }
      assert forall i :: 0 <= i < k ==> tasks[i] == front[i];
    }
  }

  ghost predicate WellPlaced(t: TaskAt) {
    && t.section.Some? && IsRegistry(t.section.value)
    && t.subsection.Some?
    && (t.subsection.value in {"Precision", "Completeness", "Uncategorized"} ==>
          t.subsection == if t.category.Some? then t.category else Some("Uncategorized"))
  }

  lemma {:induction false} TaskErrorMeaning(earlier: seq<TaskAt>, t: TaskAt)
    ensures ErrorsOfTask(earlier, t) == [] <==>
              WellPlaced(t) && forall i :: 0 <= i < |earlier| ==> earlier[i].id != t.id
  {
    hide IsRegistry;
  }

  /** Which error a task gets: at most one for being repeated, at most one for its place. */
  lemma {:induction false} TaskErrorKinds(earlier: seq<TaskAt>, t: TaskAt, e: Error)
    ensures e in ErrorsOfTask(earlier, t) <==>
              && e.line == t.line
              && match e.kind
                 case DuplicateTask => exists i :: 0 <= i < |earlier| && earlier[i].id == t.id
                 case OutsideRegistry => t.section.None? || !IsRegistry(t.section.value)
                 case NoBucket => t.section.Some? && IsRegistry(t.section.value) && t.subsection.None?
                 case WrongBucket =>
                   && t.section.Some? && IsRegistry(t.section.value) && t.subsection.Some?
                   && t.subsection.value in {"Precision", "Completeness", "Uncategorized"}
                   && t.subsection != if t.category.Some? then t.category else Some("Uncategorized")
                 case _ => false
  {
    hide IsRegistry;
  }

  /** Which title errors a document gets. */
  lemma {:induction false} TitleErrorKinds(doc: Document, e: Error)
    ensures var titles := OfLevel(doc.headings, 1);
            e in TitleErrors(doc) <==>
              match e.kind
              case MissingTitle => titles == [] && e.line == 1
              case TitleNotFirst => titles != [] && titles[0].line != doc.firstContent && e.line == titles[0].line
              case ExtraTitle => exists i :: 1 <= i < |titles| && titles[i].line == e.line
              case NoSummary => titles != [] && !HasSummary(doc, titles[0].line) && e.line == titles[0].line
              case _ => false
  {
    hide OfLevel, HasSummary;
    var titles := OfLevel(doc.headings, 1);
    if titles != [] {
      var first := if titles[0].line != doc.firstContent then [Error(titles[0].line, TitleNotFirst)] else [];
      var extra := seq(|titles| - 1, i requires 0 <= i < |titles| - 1 => Error(titles[i + 1].line, ExtraTitle));
      var last := if HasSummary(doc, titles[0].line) then [] else [Error(titles[0].line, NoSummary)];
      assert TitleErrors(doc) == first + extra + last;
      assert e in first + extra + last <==> e in first || e in extra || e in last;
      ExtraTitles(titles, extra, e);
    }
  }

  lemma {:induction false} ExtraTitles(titles: seq<HeadingAt>, extra: seq<Error>, e: Error)
    requires titles != [] && |extra| == |titles| - 1
    requires forall i :: 0 <= i < |extra| ==> extra[i] == Error(titles[i + 1].line, ExtraTitle)
    ensures e in extra <==> e.kind == ExtraTitle && exists i :: 1 <= i < |titles| && titles[i].line == e.line
  {
    if i :| 1 <= i < |titles| && titles[i].line == e.line {
      assert extra[i - 1] == Error(titles[i].line, ExtraTitle);
    }
    if i :| 0 <= i < |extra| && extra[i] == e {
      assert titles[i + 1].line == e.line;
    }
  }

  /** Exactly one level-1 heading, on the first non-blank line, with a summary before the first section. */
  ghost predicate CleanTitle(doc: Document) {
    exists i :: 0 <= i < |doc.headings| && IsOnlyTitle(doc.headings, i)
                && doc.headings[i].line == doc.firstContent && SummaryFollows(doc, doc.headings[i].line)
  }

  ghost predicate IsFirstSection(hs: seq<HeadingAt>, j: nat) {
    j < |hs| && hs[j].level == 2 && forall m :: 0 <= m < j ==> hs[m].level != 2
  }

  /** A body line below the title and above the first section. */
  ghost predicate SummaryFollows(doc: Document, title: nat) {
    exists b :: 0 <= b < |doc.body| && title < doc.body[b]
                && forall j: nat :: IsFirstSection(doc.headings, j) ==> doc.body[b] < doc.headings[j].line
  }

  lemma {:induction false} FirstSection(hs: seq<HeadingAt>)
    ensures OfLevel(hs, 2) == [] <==> !exists j: nat :: IsFirstSection(hs, j)
    ensures forall j: nat :: IsFirstSection(hs, j) ==> OfLevel(hs, 2) != [] && OfLevel(hs, 2)[0] == hs[j]
  {
    if hs != [] {
      var k := |hs| - 1;
      var front := hs[..k];
      FirstSection(front);
      forall j: nat | j < k
        ensures IsFirstSection(front, j) <==> IsFirstSection(hs, j)
      {
        assert forall m :: 0 <= m <= j ==> front[m] == hs[m];
      }
      if OfLevel(front, 2) != [] {
        var j: nat :| IsFirstSection(front, j);
        assert IsFirstSection(hs, j);
      } else if hs[k].level == 2 {
        NoSections(front);
        assert IsFirstSection(hs, k);
      }
    }
  }

  lemma {:induction false} NoSections(hs: seq<HeadingAt>)
    ensures OfLevel(hs, 2) == [] ==> forall m :: 0 <= m < |hs| ==> hs[m].level != 2
  {
    if hs != [] {
      NoSections(hs[..|hs| - 1]);
    }
  }

  lemma {:induction false} TitleSummaryMeaning(doc: Document, title: nat)
    ensures HasSummary(doc, title) <==> SummaryFollows(doc, title)
  {
    hide OfLevel;
    FirstSection(doc.headings);
    var sections := OfLevel(doc.headings, 2);
    if sections != [] {
      var j: nat :| IsFirstSection(doc.headings, j);
      assert forall m: nat :: IsFirstSection(doc.headings, m) ==> doc.headings[m] == sections[0];
    }
  }

  ghost predicate IsOnlyTitle(hs: seq<HeadingAt>, i: nat)
    requires i < |hs|
  {
    hs[i].level == 1 && forall j :: 0 <= j < |hs| && j != i ==> hs[j].level != 1
  }

  /** No errors from the title check exactly when the title is clean. */
  lemma {:induction false} CleanTitleMeaning(doc: Document)
    ensures TitleErrors(doc) == [] <==> CleanTitle(doc)
  {
    hide OfLevel, HasSummary, SummaryFollows;
    var titles := OfLevel(doc.headings, 1);
    forall i | 0 <= i < |doc.headings|
      ensures HasSummary(doc, doc.headings[i].line) <==> SummaryFollows(doc, doc.headings[i].line)
    {
      TitleSummaryMeaning(doc, doc.headings[i].line);
    }
    if |titles| == 1 {
      var i := OnlyTitle(doc.headings);
    } else {
      if |titles| > 1 {
        assert Error(titles[1].line, ExtraTitle) in TitleErrors(doc) by { ExtraTitleReported(doc); }
      }
      forall i | 0 <= i < |doc.headings|
        ensures !IsOnlyTitle(doc.headings, i)
      {
        TitleIsOnly(doc.headings, i);
      }
    }
    forall i | 0 <= i < |doc.headings| && IsOnlyTitle(doc.headings, i)
      ensures titles == [doc.headings[i]]
    {
      TitleIsOnly(doc.headings, i);
    }
  }

  lemma {:induction false} NoTitles(hs: seq<HeadingAt>)
    ensures OfLevel(hs, 1) == [] <==> forall i :: 0 <= i < |hs| ==> hs[i].level != 1
  {
    if hs != [] {
      NoTitles(hs[..|hs| - 1]);
    }
  }

  lemma {:induction false} TitleIsOnly(hs: seq<HeadingAt>, i: nat)
    requires i < |hs|
    ensures IsOnlyTitle(hs, i) ==> OfLevel(hs, 1) == [hs[i]]
  {
    var k := |hs| - 1;
    if i == k {
      NoTitles(hs[..k]);
    } else {
      TitleIsOnly(hs[..k], i);
    }
  }

  lemma {:induction false} OnlyTitle(hs: seq<HeadingAt>) returns (i: nat)
    requires |OfLevel(hs, 1)| == 1
    ensures i < |hs| && IsOnlyTitle(hs, i) && OfLevel(hs, 1) == [hs[i]]
  {
    var k := |hs| - 1;
    if hs[k].level == 1 {
      i := k;
      NoTitles(hs[..k]);
    } else {
      i := OnlyTitle(hs[..k]);
    }
  }

  lemma {:induction false} ExtraTitleReported(doc: Document)
    requires |OfLevel(doc.headings, 1)| > 1
    ensures Error(OfLevel(doc.headings, 1)[1].line, ExtraTitle) in TitleErrors(doc)
  {
    hide OfLevel, HasSummary;
    var titles := OfLevel(doc.headings, 1);
    var extra := seq(|titles| - 1, i requires 0 <= i < |titles| - 1 => Error(titles[i + 1].line, ExtraTitle));
    assert extra[0] == Error(titles[1].line, ExtraTitle);
    assert extra[0] in extra;
  }

  // ----- The two scanners against each other -----

  function Fences(lines: seq<Line>): nat {
    if lines == [] then 0 else Fences(lines[..|lines| - 1]) + if lines[|lines| - 1].Fence? then 1 else 0
  }

  /** No fenced block hides a section heading or a task from the linter. */
  ghost predicate FenceQuiet(lines: seq<Line>) {
    forall i :: 0 <= i < |lines| && Fences(lines[..i]) % 2 == 1 ==>
                  !lines[i].Bullet? && !(lines[i].Heading? && lines[i].level == 2)
  }

  lemma {:induction false} FenceParity(lines: seq<Line>)
    ensures Parsed(lines).inFence <==> Fences(lines) % 2 == 1
  {
    if lines != [] {
      FenceParity(lines[..|lines| - 1]);
    }
  }

  /** The ids of the tasks whose section the counter opens. */
  ghost function OpenTaskIds(tasks: seq<TaskAt>): set<TaskId> {
    set t | t in tasks && t.section.Some? && OpensList(t.section.value) :: t.id
  }

  ghost function TaskIds(tasks: seq<TaskAt>): set<TaskId> { set t | t in tasks :: t.id }

  ghost predicate Sectioned(tasks: seq<TaskAt>) { forall t :: t in tasks ==> t.section.Some? }

  /** Both scanners after the same lines: the flag of the counter is the section of the linter, seen through the title,
      and it has found exactly the tasks of the sections it opens. */
  ghost predicate InStep(p: Parser, c: Counter) {
    && (p.section.Some? ==> (c.inside <==> OpensList(p.section.value)))
    && c.found == OpenTaskIds(p.doc.tasks)
  }

  /** One line keeps them in step, if it is not hidden by a fence and leaves every task with a section. */
  lemma {:induction false} StepInStep(p: Parser, c: Counter, line: Line, n: nat)
    requires InStep(p, c) && Sectioned(Feed(p, line, n).doc.tasks)
    requires p.inFence ==> !line.Bullet? && !(line.Heading? && line.level == 2)
    ensures InStep(Feed(p, line, n), Count(c, line))
  {
    hide OpensList, OpenTaskIds;
    if !p.inFence && line.Bullet? {
      var t := TaskAt(line.id, n, line.category, p.section, p.subsection);
      assert Feed(p, line, n).doc.tasks == p.doc.tasks + [t];
      assert t in Feed(p, line, n).doc.tasks;
      AnotherTask(p.doc.tasks, t);
    }
  }

  /** The invariant of running both scanners side by side, on any document whose fences hide nothing and whose tasks all
      have a section. */
  lemma {:induction false} SideBySide(lines: seq<Line>)
    requires FenceQuiet(lines) && Sectioned(Parsed(lines).doc.tasks)
    ensures InStep(Parsed(lines), Counted(lines))
  {
    hide Feed, Count, Fences;
    if lines == [] {
      assert OpenTaskIds([]) == {};
    } else {
      var k := |lines| - 1;
      var front, line := lines[..k], lines[k];
      assert forall i :: 0 <= i < k ==> front[i] == lines[i] && front[..i] == lines[..i];
      TasksGrow(Parsed(front), line, k + 1);
      SideBySide(front);
      FenceParity(front);
      StepInStep(Parsed(front), Counted(front), line, k + 1);
    }
  }

  /** Every level-1 heading the linter sees is on the first non-blank line. */
  ghost predicate TitleFirst(doc: Document) {
    forall i :: 0 <= i < |doc.headings| && doc.headings[i].level == 1 ==> doc.headings[i].line == doc.firstContent
  }

  /** In step without exception: the flag is up exactly inside a section the counter opens. */
  ghost predicate Lockstep(p: Parser, c: Counter) {
    && (c.inside <==> p.section.Some? && OpensList(p.section.value))
    && c.found == OpenTaskIds(p.doc.tasks)
  }

  /** Nothing but blank lines so far. */
  ghost predicate Untouched(p: Parser, c: Counter) { p == START && c == Counter(false, {}) }

  lemma {:induction false} StepLockstep(p: Parser, c: Counter, line: Line, n: nat)
    requires Lockstep(p, c) && (p.doc.firstContent == 0 ==> Untouched(p, c)) && p.doc.firstContent < n
    requires TitleFirst(Feed(p, line, n).doc)
    requires p.inFence ==> !line.Bullet? && !(line.Heading? && line.level == 2)
    ensures Lockstep(Feed(p, line, n), Count(c, line))
    ensures Feed(p, line, n).doc.firstContent == 0 ==> Untouched(Feed(p, line, n), Count(c, line))
  {
    hide OpensList, OpenTaskIds;
    var q := Feed(p, line, n);
    if !p.inFence && line.Bullet? {
      AnotherTask(p.doc.tasks, TaskAt(line.id, n, line.category, p.section, p.subsection));
    } else if !p.inFence && line.Heading? && line.level == 1 {
      assert q.doc.headings[|p.doc.headings|] == HeadingAt(1, line.title, n);
      assert p.doc.firstContent == 0;
    }
  }

  lemma {:induction false} AnotherTask(tasks: seq<TaskAt>, t: TaskAt)
    ensures OpenTaskIds(tasks + [t])
         == OpenTaskIds(tasks) + if t.section.Some? && OpensList(t.section.value) then {t.id} else {}
  {
    hide OpensList;
    assert forall u :: u in tasks + [t] <==> u in tasks || u == t;
  }

  lemma {:induction false} TitleFirstBefore(p: Parser, line: Line, n: nat)
    requires TitleFirst(Feed(p, line, n).doc) && (p.doc.firstContent == 0 ==> p == START)
    ensures TitleFirst(p.doc)
  {
    var q := Feed(p, line, n);
    assert forall i :: 0 <= i < |p.doc.headings| ==> q.doc.headings[i] == p.doc.headings[i];
  }

  lemma {:induction false} UntouchedStart(lines: seq<Line>)
    ensures Parsed(lines).doc.firstContent <= |lines|
    ensures Parsed(lines).doc.firstContent == 0 ==> Parsed(lines) == START
  {
    if lines != [] {
      UntouchedStart(lines[..|lines| - 1]);
    }
  }

  lemma {:induction false} LockstepOf(lines: seq<Line>, i: nat)
    requires FenceQuiet(lines) && TitleFirst(Parsed(lines).doc) && i <= |lines|
    ensures Lockstep(Parsed(lines[..i]), Counted(lines[..i]))
    ensures Parsed(lines[..i]).doc.firstContent == 0 ==> Untouched(Parsed(lines[..i]), Counted(lines[..i]))
    decreases |lines|
  {
    hide Feed, Count, Fences, Lockstep, Untouched, TitleFirst, OpensList;
    assert lines[..|lines|] == lines;
    if lines == [] {
      NothingScanned();
    } else {
      var k := |lines| - 1;
      var front, line := lines[..k], lines[k];
      assert forall j :: 0 <= j < k ==> front[j] == lines[j] && front[..j] == lines[..j];
      UntouchedStart(front);
      TitleFirstBefore(Parsed(front), line, k + 1);
      LockstepOf(front, if i == |lines| then k else i);
      if i == |lines| {
        assert front[..k] == front;
        FenceParity(front);
        StepLockstep(Parsed(front), Counted(front), line, k + 1);
      } else {
        assert front[..i] == lines[..i];
      }
    }
  }

  lemma NothingScanned()
    ensures Lockstep(Parsed([]), Counted([])) && Untouched(Parsed([]), Counted([]))
  {
    assert OpenTaskIds([]) == {};
  }

  /** What the title check is for: on a document with a clean title whose fences hide nothing, whatever its tasks, the
      scanners run in lockstep at every line, and the counter finds exactly the tasks of the sections it opens. */
  lemma {:induction false} CleanTitleMeansLockstep(lines: seq<Line>, i: nat)
    requires FenceQuiet(lines) && TitleErrors(Parsed(lines).doc) == [] && i <= |lines|
    ensures Lockstep(Parsed(lines[..i]), Counted(lines[..i]))
    ensures Counted(lines).found == OpenTaskIds(Parsed(lines).doc.tasks)
  {
    hide Parsed, Counted, TitleErrors, FenceQuiet, OpenTaskIds, OpensList, HasSummary, SummaryFollows;
    var doc := Parsed(lines).doc;
    CleanTitleMeaning(doc);
    var t :| 0 <= t < |doc.headings| && IsOnlyTitle(doc.headings, t) && doc.headings[t].line == doc.firstContent;
    LockstepOf(lines, i);
    LockstepOf(lines, |lines|);
    assert lines[..|lines|] == lines;
  }

  lemma {:induction false} TasksGrow(p: Parser, line: Line, n: nat)
    ensures p.doc.tasks <= Feed(p, line, n).doc.tasks
    ensures forall t :: t in p.doc.tasks ==> t in Feed(p, line, n).doc.tasks
  {
  }

  ghost predicate SectionsOpen(tasks: seq<TaskAt>) {
    forall t :: t in tasks ==> t.section.Some? && OpensList(t.section.value)
  }

  /** On a document whose task list lints clean and whose fences hide nothing, the two scanners find the same tasks
      exactly when the counter opens every section that holds a task; and then the counts agree too. */
  lemma {:induction false} ScannersAgreeExactly(lines: seq<Line>)
    requires FenceQuiet(lines) && TaskErrors(Parsed(lines).doc.tasks) == []
    ensures var tasks := Parsed(lines).doc.tasks;
            && (Counted(lines).found == TaskIds(tasks) <==> SectionsOpen(tasks))
            && (SectionsOpen(tasks) ==> |Counted(lines).found| == |tasks|)
  {
    hide OpensList, IsRegistry, Parsed, Counted, TaskErrors;
    var tasks := Parsed(lines).doc.tasks;
    CleanTasksMeaning(tasks);
    assert Sectioned(tasks) by {
      forall t | t in tasks
        ensures t.section.Some?
      {
        var i :| 0 <= i < |tasks| && tasks[i] == t;
        assert WellPlaced(tasks[i]);
      }
    }
    SideBySide(lines);
    if SectionsOpen(tasks) {
      assert OpenTaskIds(tasks) == TaskIds(tasks);
      DistinctCount(tasks);
    } else {
      ClosedTaskIsMissed(tasks);
    }
  }

  lemma {:induction false} ClosedTaskIsMissed(tasks: seq<TaskAt>)
    requires forall i, j :: 0 <= i < j < |tasks| ==> tasks[i].id != tasks[j].id
    requires Sectioned(tasks) && !SectionsOpen(tasks)
    ensures OpenTaskIds(tasks) != TaskIds(tasks)
  {
    hide OpensList;
    var t :| t in tasks && !OpensList(t.section.value);
    assert t.id in TaskIds(tasks);
    var i :| 0 <= i < |tasks| && tasks[i] == t;
    forall u | u in tasks && u.id == t.id
      ensures u == t
    {
      var j :| 0 <= j < |tasks| && tasks[j] == u;
    }
    assert t.id !in OpenTaskIds(tasks);
  }

  lemma {:induction false} DistinctCount(tasks: seq<TaskAt>)
    requires forall i, j :: 0 <= i < j < |tasks| ==> tasks[i].id != tasks[j].id
    ensures |TaskIds(tasks)| == |tasks|
  {
    if tasks != [] {
      var k := |tasks| - 1;
      var front := tasks[..k];
      DistinctCount(front);
      assert tasks == front + [tasks[k]];
      assert TaskIds(tasks) == TaskIds(front) + {tasks[k].id};
      assert tasks[k].id !in TaskIds(front);
    }
  }

  /** The promise of the two scripts: if every registry title is one the counter opens, a clean document gives both the
      same task ids and the same count. */
  lemma {:induction false} CleanDocumentsAgree(lines: seq<Line>)
    requires FenceQuiet(lines) && TaskErrors(Parsed(lines).doc.tasks) == []
    requires forall i :: 0 <= i < |lines| && lines[i].Heading? && lines[i].level == 2 && IsRegistry(lines[i].title) ==>
                           OpensList(lines[i].title)
    ensures Counted(lines).found == TaskIds(Parsed(lines).doc.tasks)
    ensures |Counted(lines).found| == |Parsed(lines).doc.tasks|
  {
    hide OpensList, IsRegistry, Counted, TaskErrors, Parsed;
    var tasks := Parsed(lines).doc.tasks;
    CleanTasksMeaning(tasks);
    forall t | t in tasks
      ensures t.section.Some? && OpensList(t.section.value)
    {
      var i :| 0 <= i < |tasks| && tasks[i] == t;
      assert WellPlaced(tasks[i]);
      SectionsAreHeadings(lines, t);
    }
    ScannersAgreeExactly(lines);
  }

  lemma {:induction false} SectionIsHeading(lines: seq<Line>)
    ensures Parsed(lines).section.Some? ==>
              exists i :: 0 <= i < |lines| && lines[i] == Heading(2, Parsed(lines).section.value)
  {
    if lines != [] {
      var k := |lines| - 1;
      var front := lines[..k];
      SectionIsHeading(front);
      if i :| 0 <= i < |front| && Parsed(front).section.Some? && front[i] == Heading(2, Parsed(front).section.value) {
        assert lines[i] == front[i];
      }
    }
  }

  lemma {:induction false} SectionsAreHeadings(lines: seq<Line>, t: TaskAt)
    requires t in Parsed(lines).doc.tasks && t.section.Some?
    ensures exists i :: 0 <= i < |lines| && lines[i] == Heading(2, t.section.value)
  {
    if lines != [] {
      var k := |lines| - 1;
      var front := lines[..k];
      if t in Parsed(front).doc.tasks {
        SectionsAreHeadings(front, t);
        var i :| 0 <= i < |front| && front[i] == Heading(2, t.section.value);
        assert lines[i] == front[i];
      } else {
        SectionIsHeading(front);
        assert t.section == Parsed(front).section;
        var i :| 0 <= i < |front| && front[i] == Heading(2, t.section.value);
        assert lines[i] == front[i];
      }
    }
  }

  // ----- Agreement on every document -----

  /** The last level-2 heading, fenced or not. */
  function LastSection(lines: seq<Line>): Option<string> {
    if lines == [] then None
    else
      var line := lines[|lines| - 1];
      if line.Heading? && line.level == 2 then Some(line.title) else LastSection(lines[..|lines| - 1])
  }

  /** The last level-2 heading before line `i` is one the counter opens. */
  ghost predicate Opened(lines: seq<Line>, i: nat)
    requires i <= |lines|
  {
    LastSection(lines[..i]).Some? && OpensList(LastSection(lines[..i]).value)
  }

  ghost predicate Fenced(lines: seq<Line>, i: nat)
    requires i <= |lines|
  {
    Fences(lines[..i]) % 2 == 1
  }

  /** Line `i` is an entry of `id`. */
  ghost predicate EntryOf(lines: seq<Line>, i: nat, id: TaskId) {
    i < |lines| && lines[i].Bullet? && lines[i].id == id
  }

  lemma {:induction false} SamePrefix(lines: seq<Line>, i: nat, id: TaskId)
    requires lines != [] && i < |lines|
    ensures var front := lines[..|lines| - 1];
            && (EntryOf(front, i, id) <==> i < |front| && EntryOf(lines, i, id))
            && (i <= |front| ==> (Opened(front, i) <==> Opened(lines, i)) && (Fenced(front, i) <==> Fenced(lines, i)))
  {
    hide OpensList, Fences, LastSection;
    assert lines[..|lines| - 1][..i] == lines[..i];
  }

  lemma {:induction false} CounterStep(lines: seq<Line>)
    requires lines != []
    ensures var k := |lines| - 1;
            && Counted(lines) == Count(Counted(lines[..k]), lines[k])
            && LastSection(lines) == if lines[k].Heading? && lines[k].level == 2 then Some(lines[k].title)
                                     else LastSection(lines[..k])
  {
  }

  /** What the counter finds, on every document: the entries under the headings it opens, fenced or not. */
  lemma {:induction false} CounterFinds(lines: seq<Line>, id: TaskId)
    ensures Counted(lines).inside <==> Opened(lines, |lines|)
    ensures id in Counted(lines).found <==> exists i: nat :: EntryOf(lines, i, id) && Opened(lines, i)
  {
    hide OpensList, LastSection, Counted;
    assert lines[..|lines|] == lines;
    if lines == [] {
      StartOfDocument();
      NoSection();
    } else {
      var k := |lines| - 1;
      var front := lines[..k];
      CounterFinds(front, id);
      CounterStep(lines);
      forall i: nat | i < |lines|
        ensures EntryOf(front, i, id) <==> i < k && EntryOf(lines, i, id)
        ensures i <= k ==> (Opened(front, i) <==> Opened(lines, i))
      {
        SamePrefix(lines, i, id);
      }
      if i: nat :| EntryOf(front, i, id) && Opened(front, i) {
        assert EntryOf(lines, i, id) && Opened(lines, i);
      }
      if i: nat :| EntryOf(lines, i, id) && Opened(lines, i) {
        assert i == k || (EntryOf(front, i, id) && Opened(front, i));
      }
      if EntryOf(lines, k, id) && Opened(front, k) {
        assert Opened(lines, k);
      }
      assert front[..k] == front;
    }
  }

  /** The same over the literal headings. */
  lemma {:induction false} CountedUnderHeadings(lines: seq<Line>, id: TaskId)
    ensures id in Counted(lines).found <==>
              exists i: nat :: EntryOf(lines, i, id) && LastSection(lines[..i]).Some?
                               && OpeningTitle(LastSection(lines[..i]).value)
  {
    hide OpensList, OpeningTitle, LastSection, Counted;
    CounterFinds(lines, id);
    forall i: nat | i <= |lines| && LastSection(lines[..i]).Some?
      ensures OpensList(LastSection(lines[..i]).value) <==> OpeningTitle(LastSection(lines[..i]).value)
    {
      OpensListMeaning(LastSection(lines[..i]).value);
    }
    if i: nat :| EntryOf(lines, i, id) && Opened(lines, i) {
      assert EntryOf(lines, i, id) && OpeningTitle(LastSection(lines[..i]).value);
    }
    if i: nat :| EntryOf(lines, i, id) && LastSection(lines[..i]).Some? && OpeningTitle(LastSection(lines[..i]).value) {
      assert Opened(lines, i);
    }
  }

  lemma NoSection()
    ensures LastSection([]) == None
  {
  }

  /** What the linter's parser finds, on every document: the unfenced entries. */
  lemma {:induction false} LinterFinds(lines: seq<Line>, id: TaskId)
    ensures id in TaskIds(Parsed(lines).doc.tasks) <==> exists i: nat :: EntryOf(lines, i, id) && !Fenced(lines, i)
  {
    hide OpensList, Fences, Feed;
    if lines != [] {
      var k := |lines| - 1;
      var front := lines[..k];
      LinterFinds(front, id);
      FenceParity(front);
      FedTasks(Parsed(front), lines[k], k + 1, id);
      forall i: nat | i < |lines|
        ensures EntryOf(front, i, id) <==> i < k && EntryOf(lines, i, id)
        ensures i <= k ==> (Fenced(front, i) <==> Fenced(lines, i))
      {
        SamePrefix(lines, i, id);
      }
      if i: nat :| EntryOf(front, i, id) && !Fenced(front, i) {
        assert EntryOf(lines, i, id) && !Fenced(lines, i);
      }
      if i: nat :| EntryOf(lines, i, id) && !Fenced(lines, i) {
        assert i == k || (EntryOf(front, i, id) && !Fenced(front, i));
      }
      if EntryOf(lines, k, id) && !Fenced(front, k) {
        assert !Fenced(lines, k);
      }
      assert front[..k] == front;
    }
  }

  lemma {:induction false} FedTasks(p: Parser, line: Line, n: nat, id: TaskId)
    ensures id in TaskIds(Feed(p, line, n).doc.tasks) <==>
              id in TaskIds(p.doc.tasks) || (!p.inFence && line.Bullet? && line.id == id)
  {
    var tasks := Feed(p, line, n).doc.tasks;
    if !p.inFence && line.Bullet? {
      var t := TaskAt(line.id, n, line.category, p.section, p.subsection);
      assert tasks == p.doc.tasks + [t];
      assert t in tasks;
      assert forall u :: u in tasks <==> u in p.doc.tasks || u == t;
    }
  }

  /** Every unfenced entry has an entry under an opened heading, and every fenced entry under one repeats an unfenced
      entry. */
  ghost predicate SameEntries(lines: seq<Line>) {
    && (forall i: nat :: i < |lines| && lines[i].Bullet? && !Fenced(lines, i) ==>
          exists j: nat :: EntryOf(lines, j, lines[i].id) && Opened(lines, j))
    && (forall i: nat :: i < |lines| && lines[i].Bullet? && Fenced(lines, i) && Opened(lines, i) ==>
          exists j: nat :: EntryOf(lines, j, lines[i].id) && !Fenced(lines, j))
  }

  /** The exact condition, on every document; on a clean task list the counts then agree too. */
  lemma {:induction false} ScannersAgreeIff(lines: seq<Line>)
    ensures Counted(lines).found == TaskIds(Parsed(lines).doc.tasks) <==> SameEntries(lines)
    ensures SameEntries(lines) && TaskErrors(Parsed(lines).doc.tasks) == [] ==>
              |Counted(lines).found| == |Parsed(lines).doc.tasks|
  {
    hide Parsed, Counted, TaskIds, Opened, Fenced, TaskErrors;
    var tasks := Parsed(lines).doc.tasks;
    forall id
      ensures id in Counted(lines).found <==> exists i: nat :: EntryOf(lines, i, id) && Opened(lines, i)
      ensures id in TaskIds(tasks) <==> exists i: nat :: EntryOf(lines, i, id) && !Fenced(lines, i)
    {
      CounterFinds(lines, id);
      LinterFinds(lines, id);
    }
    if SameEntries(lines) {
      forall id
        ensures id in Counted(lines).found <==> id in TaskIds(tasks)
      {
        if id in TaskIds(tasks) {
          var i: nat :| EntryOf(lines, i, id) && !Fenced(lines, i);
        }
        if id in Counted(lines).found {
          var i: nat :| EntryOf(lines, i, id) && Opened(lines, i);
        }
      }
      if TaskErrors(tasks) == [] {
        CleanTasksMeaning(tasks);
        DistinctCount(tasks);
      }
    }
    if Counted(lines).found == TaskIds(tasks) {
      forall i: nat | i < |lines| && lines[i].Bullet? && !Fenced(lines, i)
        ensures exists j: nat :: EntryOf(lines, j, lines[i].id) && Opened(lines, j)
      {
        assert EntryOf(lines, i, lines[i].id);
        assert lines[i].id in TaskIds(tasks);
      }
      forall i: nat | i < |lines| && lines[i].Bullet? && Fenced(lines, i) && Opened(lines, i)
        ensures exists j: nat :: EntryOf(lines, j, lines[i].id) && !Fenced(lines, j)
      {
        assert EntryOf(lines, i, lines[i].id);
        assert lines[i].id in Counted(lines).found;
      }
    }
  }

  // ----- What the parser records -----

  /** Headings are the unfenced headings, body lines the unfenced entries and prose, with their line numbers. */
  lemma {:induction false} ParserRecords(lines: seq<Line>, n: nat)
    ensures forall h :: h in Parsed(lines).doc.headings && h.line == n <==>
              1 <= n <= |lines| && !Fenced(lines, n - 1) && lines[n - 1] == Heading(h.level, h.title) && h.line == n
    ensures n in Parsed(lines).doc.body <==>
              1 <= n <= |lines| && !Fenced(lines, n - 1) && (lines[n - 1].Bullet? || lines[n - 1].Prose?)
  {
    hide Fences;
    if lines != [] {
      var k := |lines| - 1;
      var front := lines[..k];
      ParserRecords(front, n);
      FenceParity(front);
      assert 1 <= n <= k ==> front[..n - 1] == lines[..n - 1];
      assert lines[..k] == front;
      var p, q := Parsed(front).doc, Parsed(lines).doc;
      assert forall h :: h in q.headings <==>
        h in p.headings || (lines[k].Heading? && !Parsed(front).inFence
                            && h == HeadingAt(lines[k].level, lines[k].title, k + 1));
      assert n in q.body <==>
        n in p.body || (n == k + 1 && !Parsed(front).inFence && (lines[k].Bullet? || lines[k].Prose?));
    }
  }

  /** The first content line is the first line that is not blank, fenced or not. */
  lemma {:induction false} FirstContentMeaning(lines: seq<Line>)
    ensures var n := Parsed(lines).doc.firstContent;
            if n == 0 then forall i :: 0 <= i < |lines| ==> lines[i].Blank?
            else n <= |lines| && !lines[n - 1].Blank? && forall i :: 0 <= i < n - 1 ==> lines[i].Blank?
  {
    if lines != [] {
      FirstContentMeaning(lines[..|lines| - 1]);
    }
  }

  // ----- Where a task sits -----

  /** Line `j` is an unfenced heading of level `top` or higher up. */
  ghost predicate Head(lines: seq<Line>, j: nat, top: nat) {
    j < |lines| && lines[j].Heading? && lines[j].level <= top && !Fenced(lines, j)
  }

  ghost predicate NoHead(lines: seq<Line>, from: nat, to: nat, top: nat) {
    forall m: nat :: from <= m < to ==> !Head(lines, m, top)
  }

  /** The section in force before line `i`: the title of the last unfenced heading of level 1 or 2, if it has level 2.
      */
  ghost predicate SectionInForce(lines: seq<Line>, i: nat, section: Option<string>) {
    if section.Some? then
      exists j: nat :: j < i && Head(lines, j, 2) && lines[j] == Heading(2, section.value) && NoHead(lines, j + 1, i, 2)
    else
      NoHead(lines, 0, i, 2) || exists j: nat :: j < i && Head(lines, j, 1) && NoHead(lines, j + 1, i, 2)
  }

  /** The bucket in force: the title of the last unfenced heading of level 1 to 3, if it has level 3. */
  ghost predicate SubsectionInForce(lines: seq<Line>, i: nat, subsection: Option<string>) {
    if subsection.Some? then
      exists j: nat :: j < i && Head(lines, j, 3) && lines[j] == Heading(3, subsection.value)
                       && NoHead(lines, j + 1, i, 3)
    else
      NoHead(lines, 0, i, 3) || exists j: nat :: j < i && Head(lines, j, 2) && NoHead(lines, j + 1, i, 3)
  }

  lemma {:induction false} HeadOfPrefix(lines: seq<Line>, i: nat, j: nat, top: nat)
    requires j < i <= |lines|
    ensures Head(lines[..i], j, top) <==> Head(lines, j, top)
  {
    hide Fences;
    assert lines[..i][..j] == lines[..j];
  }

  lemma {:induction false} InForceOfPrefix(lines: seq<Line>, i: nat, section: Option<string>)
    requires i <= |lines|
    ensures SectionInForce(lines[..i], i, section) ==> SectionInForce(lines, i, section)
    ensures SubsectionInForce(lines[..i], i, section) ==> SubsectionInForce(lines, i, section)
  {
    hide Head;
    forall j: nat, top: nat | j < i
      ensures Head(lines[..i], j, top) <==> Head(lines, j, top)
    {
      HeadOfPrefix(lines, i, j, top);
    }
  }

  /** One more line: an unfenced heading of level 1 or 2 starts a new section, any other line changes nothing. */
  lemma {:induction false} SectionStep(lines: seq<Line>, section: Option<string>)
    requires lines != [] && SectionInForce(lines[..|lines| - 1], |lines| - 1, section)
    ensures var k := |lines| - 1;
            if Head(lines, k, 2) then
              SectionInForce(lines, |lines|, if lines[k].level == 2 then Some(lines[k].title) else None)
            else SectionInForce(lines, |lines|, section)
  {
    hide Head;
    var k := |lines| - 1;
    InForceOfPrefix(lines, k, section);
    HeadLevels(lines, k);
    if Head(lines, k, 2) {
      assert NoHead(lines, k + 1, |lines|, 2);
    } else if section.Some? {
      var j: nat :| j < k && Head(lines, j, 2) && lines[j] == Heading(2, section.value) && NoHead(lines, j + 1, k, 2);
      assert NoHead(lines, j + 1, |lines|, 2);
    } else if NoHead(lines, 0, k, 2) {
      assert NoHead(lines, 0, |lines|, 2);
    } else {
      var j: nat :| j < k && Head(lines, j, 1) && NoHead(lines, j + 1, k, 2);
      assert NoHead(lines, j + 1, |lines|, 2);
    }
  }

  lemma {:induction false} HeadLevels(lines: seq<Line>, k: nat)
    ensures forall top: nat :: Head(lines, k, top) ==> lines[k].Heading? && lines[k].level <= top
    ensures Head(lines, k, 2) && lines[k].level != 2 ==> Head(lines, k, 1)
    ensures Head(lines, k, 2) ==> Head(lines, k, 3)
    ensures Head(lines, k, 3) && lines[k].level != 3 ==> Head(lines, k, 2)
  {
  }

  lemma {:induction false} SubsectionStep(lines: seq<Line>, subsection: Option<string>)
    requires lines != [] && SubsectionInForce(lines[..|lines| - 1], |lines| - 1, subsection)
    ensures var k := |lines| - 1;
            if Head(lines, k, 3) then
              SubsectionInForce(lines, |lines|, if lines[k].level == 3 then Some(lines[k].title) else None)
            else SubsectionInForce(lines, |lines|, subsection)
  {
    hide Head;
    var k := |lines| - 1;
    InForceOfPrefix(lines, k, subsection);
    HeadLevels(lines, k);
    if Head(lines, k, 3) {
      assert NoHead(lines, k + 1, |lines|, 3);
    } else if subsection.Some? {
      var j: nat :| j < k && Head(lines, j, 3) && lines[j] == Heading(3, subsection.value)
        && NoHead(lines, j + 1, k, 3);
      assert NoHead(lines, j + 1, |lines|, 3);
    } else if NoHead(lines, 0, k, 3) {
      assert NoHead(lines, 0, |lines|, 3);
    } else {
      var j: nat :| j < k && Head(lines, j, 2) && NoHead(lines, j + 1, k, 3);
      assert NoHead(lines, j + 1, |lines|, 3);
    }
  }

  lemma {:induction false} ParserInForce(lines: seq<Line>)
    ensures SectionInForce(lines, |lines|, Parsed(lines).section)
    ensures SubsectionInForce(lines, |lines|, Parsed(lines).subsection)
  {
    hide SectionInForce, SubsectionInForce, Fences;
    if lines == [] {
      NothingInForce();
    } else {
      var k := |lines| - 1;
      ParserInForce(lines[..k]);
      SectionStep(lines, Parsed(lines[..k]).section);
      SubsectionStep(lines, Parsed(lines[..k]).subsection);
      FenceParity(lines[..k]);
    }
  }

  lemma NothingInForce()
    ensures SectionInForce([], 0, None) && SubsectionInForce([], 0, None)
  {
  }

  /** Each task of the linter is an unfenced entry, with its tag, under the section and the bucket in force there. */
  lemma {:induction false} TaskPlacement(lines: seq<Line>, t: TaskAt)
    requires t in Parsed(lines).doc.tasks
    ensures 1 <= t.line <= |lines|
    ensures var i := t.line - 1;
            && lines[i] == Bullet(t.id, t.category) && !Fenced(lines, i)
            && SectionInForce(lines, i, t.section) && SubsectionInForce(lines, i, t.subsection)
  {
    hide SectionInForce, SubsectionInForce, Fences;
    if lines != [] {
      var k := |lines| - 1;
      var front := lines[..k];
      if t in Parsed(front).doc.tasks {
        TaskPlacement(front, t);
        var i := t.line - 1;
        assert front[..i] == lines[..i];
        InForceShorter(lines, i, t.section);
        InForceShorter(lines, i, t.subsection);
      } else {
        ParserInForce(front);
        FenceParity(front);
        InForceOfPrefix(lines, k, t.section);
        InForceOfPrefix(lines, k, t.subsection);
        assert lines[..k] == front;
      }
    }
  }

  lemma {:induction false} InForceShorter(lines: seq<Line>, i: nat, section: Option<string>)
    requires lines != [] && i < |lines|
    ensures var front := lines[..|lines| - 1];
            && (SectionInForce(front, i, section) ==> SectionInForce(lines, i, section))
            && (SubsectionInForce(front, i, section) ==> SubsectionInForce(lines, i, section))
  {
    hide Head;
    var k := |lines| - 1;
    forall j: nat, top: nat | j < i
      ensures Head(lines[..k], j, top) <==> Head(lines, j, top)
    {
      HeadOfPrefix(lines, k, j, top);
    }
  }

  // ----- Where they part -----

  lemma {:induction false} ParsedSnoc(lines: seq<Line>, line: Line)
    ensures Parsed(lines + [line]) == Feed(Parsed(lines), line, |lines| + 1)
    ensures Counted(lines + [line]) == Count(Counted(lines), line)
  {
    assert (lines + [line])[..|lines|] == lines;
  }

  /** Under every registry title the counter does not open, a task that lints clean is lost. */
  lemma {:induction false} OtherFollowUpsAreLost(title: string, id: TaskId)
    requires IsRegistry(title) && !OpensList(title)
    ensures var lines := [Heading(2, title), Heading(3, "Uncategorized"), Bullet(id, None)];
            && FenceQuiet(lines) && TaskErrors(Parsed(lines).doc.tasks) == []
            && Counted(lines).found == {} && TaskIds(Parsed(lines).doc.tasks) == {id}
  {
    hide Parsed, Counted, IsRegistry, OpensList, TaskErrors, FenceQuiet;
    var bucket := "Uncategorized";
    var l1, l2, l3: Line := Heading(2, title), Heading(3, bucket), Bullet(id, None);
    ThreeLines(title, bucket, id);
    var tasks := Parsed([l1, l2, l3]).doc.tasks;
    CleanTasksMeaning(tasks);
    assert WellPlaced(tasks[0]);
    NoFences([l1, l2, l3]);
  }

  lemma {:induction false} ThreeLines(title: string, bucket: string, id: TaskId)
    ensures var lines := [Heading(2, title), Heading(3, bucket), Bullet(id, None)];
            && Parsed(lines).doc.tasks == [TaskAt(id, 3, None, Some(title), Some(bucket))]
            && (!OpensList(title) ==> Counted(lines).found == {})
  {
    hide Parsed, Counted, OpensList;
    var l1, l2, l3: Line := Heading(2, title), Heading(3, bucket), Bullet(id, None);
    StartOfDocument();
    ParsedSnoc([], l1);
    assert [] + [l1] == [l1];
    ParsedSnoc([l1], l2);
    assert [l1] + [l2] == [l1, l2];
    ParsedSnoc([l1, l2], l3);
    assert [l1, l2] + [l3] == [l1, l2, l3];
  }

  lemma {:induction false} NoFences(lines: seq<Line>)
    requires forall i :: 0 <= i < |lines| ==> !lines[i].Fence?
    ensures FenceQuiet(lines)
  {
    forall i | 0 <= i <= |lines|
      ensures Fences(lines[..i]) == 0
    {
      NoneCounted(lines[..i]);
    }
  }

  lemma {:induction false} NoneCounted(lines: seq<Line>)
    requires forall i :: 0 <= i < |lines| ==> !lines[i].Fence?
    ensures Fences(lines) == 0
  {
    if lines != [] {
      NoneCounted(lines[..|lines| - 1]);
    }
  }

  lemma StartOfDocument()
    ensures Parsed([]) == START && Counted([]) == Counter(false, {})
  {
  }

  /** There are such titles. */
  lemma CiFollowUps()
    ensures IsRegistry("CI follow-ups") && !OpensList("CI follow-ups")
  {
    var title := "CI follow-ups";
    var text := "follow-ups";
    forall k | 0 <= k < |text|
      ensures Lower(title[3 + k]) == text[k]
    {
      assert title[3 + k] == title[3..][k];
      assert title[3..] == text;
    }
    assert At(title, 3, text) && Boundary(title, 3) && Boundary(title, 13);
    StartsDifferently(title, "open tasks");
    StartsDifferently(title, "backend-repo follow-ups");
  }

  lemma {:induction false} StartsDifferently(title: string, text: string)
    requires title != "" && text != "" && Lower(title[0]) != text[0]
    ensures !At(title, 0, text)
  {
    assert title[0 + 0] == title[0];
  }

  /** Without a clean title they fall out of step: a level-1 heading ends the section for the linter only. */
  lemma {:induction false} LateTitleBreaksLockstep(title: string, late: string, id: TaskId)
    requires OpensList(title)
    ensures var lines := [Heading(2, title), Heading(1, late), Bullet(id, None)];
            && FenceQuiet(lines) && TitleErrors(Parsed(lines).doc) != []
            && Counted(lines).found == {id} && OpenTaskIds(Parsed(lines).doc.tasks) == {}
  {
    hide Parsed, Counted, OpensList, FenceQuiet, TitleErrors, HasSummary;
    LateTitleLines(title, late, id);
    var lines := [Heading(2, title), Heading(1, late), Bullet(id, None)];
    CleanTitleMeaning(Parsed(lines).doc);
    NoFences(lines);
  }

  lemma {:induction false} LateTitleLines(title: string, late: string, id: TaskId)
    requires OpensList(title)
    ensures var lines := [Heading(2, title), Heading(1, late), Bullet(id, None)];
            && Counted(lines).found == {id}
            && Parsed(lines).doc == Document([HeadingAt(2, title, 1), HeadingAt(1, late, 2)],
                                             [TaskAt(id, 3, None, None, None)], 1, [3])
  {
    hide Parsed, Counted, OpensList;
    var l1, l2, l3: Line := Heading(2, title), Heading(1, late), Bullet(id, None);
    StartOfDocument();
    ParsedSnoc([], l1);
    assert [] + [l1] == [l1];
    ParsedSnoc([l1], l2);
    assert [l1] + [l2] == [l1, l2];
    ParsedSnoc([l1, l2], l3);
    assert [l1, l2] + [l3] == [l1, l2, l3];
  }

  /** Without a clean task list they differ too: a task before any section is seen by the linter alone. */
  lemma {:induction false} StrayTaskIsLost(id: TaskId)
    ensures var lines := [Bullet(id, None)];
            && FenceQuiet(lines) && TaskErrors(Parsed(lines).doc.tasks) != []
            && Counted(lines).found == {} && TaskIds(Parsed(lines).doc.tasks) == {id}
  {
    hide Parsed, Counted, TaskErrors, FenceQuiet;
    var line: Line := Bullet(id, None);
    StartOfDocument();
    ParsedSnoc([], line);
    assert [] + [line] == [line];
    var tasks := Parsed([line]).doc.tasks;
    assert tasks == [TaskAt(id, 1, None, None, None)];
    CleanTasksMeaning(tasks);
    assert !WellPlaced(tasks[0]);
    NoFences([line]);
  }

  /** A fenced example entry inside a task list the counter opens: the linter ignores it, the counter counts it. */
  lemma {:induction false} FencedExamplesAreCounted(title: string, id: TaskId)
    requires OpensList(title)
    ensures var lines := [Heading(2, title), Fence, Bullet(id, None), Fence];
            && TaskErrors(Parsed(lines).doc.tasks) == []
            && TaskIds(Parsed(lines).doc.tasks) == {} && Counted(lines).found == {id}
  {
    hide Parsed, Counted, OpensList;
    var l1, l2, l3: Line := Heading(2, title), Fence, Bullet(id, None);
    StartOfDocument();
    ParsedSnoc([], l1);
    ParsedSnoc([l1], l2);
    ParsedSnoc([l1, l2], l3);
    ParsedSnoc([l1, l2, l3], l2);
    assert [] + [l1] == [l1] && [l1] + [l2] == [l1, l2] && [l1, l2] + [l3] == [l1, l2, l3];
    assert [l1, l2, l3] + [l2] == [l1, l2, l3, l2];
  }

  /** The fence condition is sufficient only: a fenced entry outside every task list harms nobody. */
  lemma {:induction false} FenceConditionIsOneWay(id: TaskId)
    ensures var lines := [Fence, Bullet(id, None), Fence];
            !FenceQuiet(lines) && Counted(lines).found == {} && Parsed(lines).doc.tasks == []
  {
    hide Parsed, Counted, OpensList;
    var l1, l2: Line := Fence, Bullet(id, None);
    StartOfDocument();
    ParsedSnoc([], l1);
    ParsedSnoc([l1], l2);
    ParsedSnoc([l1, l2], l1);
    assert [] + [l1] == [l1] && [l1] + [l2] == [l1, l2] && [l1, l2] + [l1] == [l1, l2, l1];
    var lines := [l1, l2, l1];
    assert lines[..1] == [l1] && [l1][..0] == [];
    assert Fences(lines[..1]) == 1;
  }

  /** There are such titles. */
  lemma OpenTasksOpens()
    ensures OpensList("Open tasks")
  {
    var title, text := "Open tasks", "open tasks";
    assert Lower(title[0]) == text[0];
    forall k | 0 <= k < |text|
      ensures Lower(title[0 + k]) == text[k]
    {
      if k > 0 {
        assert title[k] == title[1..][k - 1] && text[k] == text[1..][k - 1];
        assert title[1..] == text[1..];
      }
    }
    assert At(title, 0, text);
  }
}
