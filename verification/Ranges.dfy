/** Ordinals written as ranges: the pending array handed to the scheduler, and the case lists of the expectations. */
module Ranges {
  import opened Decimal
  import opened Delimited
  import Sorting

  datatype Run = Run(lo: nat, hi: nat)

  // ----- Grouping -----

  function Grown(rs: seq<Run>, x: nat): seq<Run> {
    var k := |rs| - 1;
    if rs != [] && x == rs[k].hi + 1 then rs[..k] + [Run(rs[k].lo, x)] else rs + [Run(x, x)]
  }

  /** Consecutive neighbours share a run. */
  function Runs(xs: seq<nat>): seq<Run> {
    if xs == [] then [] else Grown(Runs(xs[..|xs| - 1]), xs[|xs| - 1])
  }

  function Count(lo: nat, hi: nat): seq<nat> { if lo > hi then [] else seq(hi + 1 - lo, i requires 0 <= i => lo + i) }

  /** The ordinals a list of ranges stands for. */
  function Expand(rs: seq<Run>): seq<nat> {
    if rs == [] then [] else Expand(rs[..|rs| - 1]) + Count(rs[|rs| - 1].lo, rs[|rs| - 1].hi)
  }

  ghost predicate Proper(rs: seq<Run>) { forall i :: 0 <= i < |rs| ==> rs[i].lo <= rs[i].hi }

  /** No two neighbouring ranges could have been one. */
  ghost predicate Maximal(rs: seq<Run>) { forall i, j :: 0 <= i && j == i + 1 < |rs| ==> rs[i].hi + 1 != rs[j].lo }

  lemma {:induction false} CountSnoc(lo: nat, hi: nat)
    requires lo <= hi
    ensures Count(lo, hi + 1) == Count(lo, hi) + [hi + 1]
    ensures Count(lo, lo) == [lo]
  {
  }

  lemma {:induction false} ExpandSnoc(rs: seq<Run>, r: Run)
    ensures Expand(rs + [r]) == Expand(rs) + Count(r.lo, r.hi)
  {
    assert (rs + [r])[..|rs|] == rs;
  }

  lemma {:induction false} GrownMeaning(rs: seq<Run>, x: nat)
    requires Proper(rs) && Maximal(rs)
    ensures Proper(Grown(rs, x)) && Maximal(Grown(rs, x)) && Grown(rs, x) != []
    ensures Expand(Grown(rs, x)) == Expand(rs) + [x]
  {
    hide Expand, Count;
    var k := |rs| - 1;
    if rs != [] && x == rs[k].hi + 1 {
      CountSnoc(rs[k].lo, rs[k].hi);
      assert rs == rs[..k] + [rs[k]];
      ExpandSnoc(rs[..k], rs[k]);
      ExpandSnoc(rs[..k], Run(rs[k].lo, x));
    } else {
      CountSnoc(x, x);
      ExpandSnoc(rs, Run(x, x));
    }
  }

  /** The ranges stand for exactly the given list, in its order, and cannot be merged further. */
  lemma {:induction false} RunsMeaning(xs: seq<nat>)
    ensures Expand(Runs(xs)) == xs
    ensures Proper(Runs(xs)) && Maximal(Runs(xs))
    ensures Runs(xs) == [] <==> xs == []
  {
    hide Grown, Expand, Proper, Maximal;
    if xs == [] {
      NothingToExpand();
    } else {
      var k := |xs| - 1;
      RunsMeaning(xs[..k]);
      GrownMeaning(Runs(xs[..k]), xs[k]);
      assert xs == xs[..k] + [xs[k]];
    }
  }

  lemma NothingToExpand()
    ensures Expand([]) == [] && Proper([]) && Maximal([])
  {
  }

  lemma {:induction false} RunsSnoc(xs: seq<nat>, x: nat)
    ensures Runs(xs + [x]) == Grown(Runs(xs), x)
  {
    assert (xs + [x])[..|xs|] == xs;
  }

  lemma {:induction false} RunsOfCount(xs: seq<nat>, lo: nat, hi: nat)
    requires lo <= hi
    requires Runs(xs) != [] ==> Runs(xs)[|Runs(xs)| - 1].hi + 1 != lo
    ensures Runs(xs + Count(lo, hi)) == Runs(xs) + [Run(lo, hi)]
    decreases hi
  {
    hide Runs, Count;
    if lo == hi {
      CountSnoc(lo, lo);
      RunsSnoc(xs, lo);
    } else {
      RunsOfCount(xs, lo, hi - 1);
      CountSnoc(lo, hi - 1);
      assert xs + Count(lo, hi) == (xs + Count(lo, hi - 1)) + [hi];
      RunsSnoc(xs + Count(lo, hi - 1), hi);
    }
  }

  /** Any unmergeable list of ranges is the one computed from what it stands for. */
  lemma {:induction false} RunsAreUnique(rs: seq<Run>)
    requires Proper(rs) && Maximal(rs)
    ensures Runs(Expand(rs)) == rs
  {
    hide Runs, Count;
    if rs == [] {
      NoRuns();
    } else {
      var k := |rs| - 1;
      RunsAreUnique(rs[..k]);
      RunsOfCount(Expand(rs[..k]), rs[k].lo, rs[k].hi);
      assert rs == rs[..k] + [rs[k]];
    }
  }

  lemma NoRuns()
    ensures Runs([]) == []
  {
  }

  // ----- Printing -----

  function Text(r: Run): string { if r.lo == r.hi then Digits(r.lo) else Digits(r.lo) + "-" + Digits(r.hi) }

  function Texts(rs: seq<Run>): seq<string> { seq(|rs|, i requires 0 <= i < |rs| => Text(rs[i])) }

  /** The grouping loop shared by both printers. */
  method Group(xs: seq<nat>) returns (pieces: seq<string>)
    requires xs != []
    ensures pieces == Texts(Runs(xs))
  {
    hide Text, Runs;
    pieces := [];
    var start, previous := xs[0], xs[0];
    FirstRun(xs[0]);
    assert xs[..1] == [xs[0]];
    ghost var closed: seq<Run> := [];
    for i := 1 to |xs|
      invariant Runs(xs[..i]) == closed + [Run(start, previous)]
      invariant pieces == Texts(closed)
    {
      assert xs[..i + 1] == xs[..i] + [xs[i]];
      RunsSnoc(xs[..i], xs[i]);
      if xs[i] == previous + 1 {
        previous := xs[i];
        continue;
      }
      pieces := pieces + [Text(Run(start, previous))];
      closed := closed + [Run(start, previous)];
      start, previous := xs[i], xs[i];
    }
    assert xs[..|xs|] == xs;
    pieces := pieces + [Text(Run(start, previous))];
  }

  lemma {:induction false} FirstRun(x: nat)
    ensures Runs([x]) == [Run(x, x)]
  {
    NoRuns();
    RunsSnoc([], x);
    assert [] + [x] == [x];
  }

  /** The pending array. */
  method CompressIndices(indices: seq<nat>) returns (text: string)
    ensures text == Compressed(indices)
    ensures Read(text) == indices
  {
    ReadCompressed(indices);
    if indices == [] {
      return "";
    }
    var ranges := Group(indices);
    text := Join(",", ranges);
  }

  function Compressed(xs: seq<nat>): string { Join(",", Texts(Runs(xs))) }

  predicate AtMost(x: nat, y: nat) { x <= y }

  function Compacted(xs: seq<nat>): string {
    if xs == [] then "none" else Join(", ", Texts(Runs(Sorting.Sort(xs, AtMost))))
  }

  ghost predicate Ascending(xs: seq<nat>) { forall i, j :: 0 <= i < j < |xs| ==> xs[i] <= xs[j] }

  lemma {:induction false} SortAscends(xs: seq<nat>)
    ensures Ascending(Sorting.Sort(xs, AtMost))
  {
    Sorting.SortSorts(xs, AtMost);
  }

  /** The case list of an expectation: it reads back as the same ordinals in ascending order. */
  method CompactOrdinals(ordinals: seq<nat>) returns (text: string)
    ensures text == Compacted(ordinals)
    ensures text == "none" <==> ordinals == []
    ensures ordinals != [] ==> multiset(Read(Unspaced(text))) == multiset(ordinals)
    ensures ordinals != [] ==> Ascending(Read(Unspaced(text)))
  {
    NoneIsNoNumber(ordinals);
    if ordinals == [] {
      return "none";
    }
    ReadCompacted(ordinals);
    SortAscends(ordinals);
    Sorting.SortPermutes(ordinals, AtMost);
    Sorting.PermutationSameElements(ordinals, Sorting.Sort(ordinals, AtMost));
    var values := Sorting.Sort(ordinals, AtMost);
    var ranges := Group(values);
    text := Join(", ", ranges);
  }

  // ----- Reading back -----

  function Unspaced(s: string): string { Without({' '}, s) }

  function ReadRun(piece: string): Run {
    var ends := Split('-', piece);
    if |ends| == 1 then Run(ParseNat(ends[0]), ParseNat(ends[0])) else Run(ParseNat(ends[0]), ParseNat(ends[1]))
  }

  /** What the scheduler makes of an array specification. */
  function Read(text: string): seq<nat> {
    if text == "" then [] else
      var pieces := Split(',', text);
      Expand(seq(|pieces|, i requires 0 <= i < |pieces| => ReadRun(pieces[i])))
  }

  ghost predicate Plain(s: string) { ',' !in s && ' ' !in s && s != "" }

  lemma {:induction false} TextMeaning(r: Run)
    ensures Plain(Text(r)) && IsDigit(Text(r)[0])
    ensures ReadRun(Text(r)) == r
  {
    hide Digits, Split, ParseNat;
    DigitsRoundTrip(r.lo);
    DigitsRoundTrip(r.hi);
    if r.lo == r.hi {
      SplitPlain('-', Digits(r.lo));
    } else {
      SplitPlain('-', Digits(r.lo));
      SplitAtSeparator('-', Digits(r.lo), Digits(r.hi));
    }
  }

  lemma {:induction false} ReadTexts(rs: seq<Run>)
    ensures Read(Join(",", Texts(rs))) == Expand(rs)
  {
    hide Split, Join, Text, ReadRun, Expand;
    forall i | 0 <= i < |rs|
      ensures Plain(Text(rs[i])) && ReadRun(Text(rs[i])) == rs[i]
    {
      TextMeaning(rs[i]);
    }
    if rs == [] {
      JoinNothing();
      assert Texts(rs) == [];
    } else {
      var pieces := Texts(rs);
      SplitJoin(',', pieces);
      JoinNonempty(",", pieces);
      assert "," == [','];
      assert seq(|pieces|, i requires 0 <= i < |pieces| => ReadRun(pieces[i])) == rs;
    }
  }

  lemma JoinNothing()
    ensures Join(",", []) == "" && Expand([]) == []
  {
  }

  /** The pending array reads back as exactly the pending ordinals, in order. */
  lemma {:induction false} ReadCompressed(xs: seq<nat>)
    ensures Read(Compressed(xs)) == xs
    ensures xs == [] ==> Compressed(xs) == ""
  {
    hide Read, Expand, Runs;
    RunsMeaning(xs);
    ReadTexts(Runs(xs));
    JoinNothing();
  }

  lemma {:induction false} UnspacedJoin(pieces: seq<string>)
    requires forall i :: 0 <= i < |pieces| ==> ' ' !in pieces[i]
    ensures Unspaced(Join(", ", pieces)) == Join(",", pieces)
  {
    hide Without;
    var k := |pieces| - 1;
    if pieces == [] {
      WithoutNothing({' '}, "");
    } else if k == 0 {
      WithoutNothing({' '}, pieces[0]);
    } else {
      UnspacedJoin(pieces[..k]);
      WithoutAppend({' '}, Join(", ", pieces[..k]) + ", ", pieces[k]);
      WithoutAppend({' '}, Join(", ", pieces[..k]), ", ");
      WithoutNothing({' '}, pieces[k]);
      CommaSpace();
    }
  }

  lemma CommaSpace()
    ensures Unspaced(", ") == ","
  {
    WithoutAppend({' '}, ",", " ");
    WithoutNothing({' '}, ",");
    assert "," + " " == ", ";
  }

  lemma {:induction false} ReadCompacted(xs: seq<nat>)
    requires xs != []
    ensures Read(Unspaced(Compacted(xs))) == Sorting.Sort(xs, AtMost)
    ensures multiset(Sorting.Sort(xs, AtMost)) == multiset(xs)
  {
    hide Read, Unspaced, Expand, Text, Runs;
    var values := Sorting.Sort(xs, AtMost);
    Sorting.SortPermutes(xs, AtMost);
    Sorting.PermutationSameElements(xs, values);
    var rs := Runs(values);
    forall i | 0 <= i < |rs|
      ensures ' ' !in Texts(rs)[i]
    {
      TextMeaning(rs[i]);
    }
    UnspacedJoin(Texts(rs));
    RunsMeaning(values);
    ReadTexts(rs);
  }

  lemma {:induction false} NoneIsNoNumber(xs: seq<nat>)
    ensures Compacted(xs) == "none" <==> xs == []
  {
    hide Runs, Text, Join;
    if xs != [] {
      var values := Sorting.Sort(xs, AtMost);
      Sorting.SortPermutes(xs, AtMost);
      Sorting.PermutationSameElements(xs, values);
      RunsMeaning(values);
      var rs := Runs(values);
      TextMeaning(rs[0]);
      JoinNonempty(", ", Texts(rs));
      assert Compacted(xs)[0] == Text(rs[0])[0];
      assert "none"[0] == 'n';
    }
  }

  /** Two case lists print alike exactly when they hold the same ordinals, in whatever order. */
  lemma {:induction false} SameTextExactlyWhenSameOrdinals(a: seq<nat>, b: seq<nat>)
    ensures Compacted(a) == Compacted(b) <==> multiset(a) == multiset(b)
  {
    hide Sorting.Sort, Read, Unspaced, Join, Texts, Runs;
    NoneIsNoNumber(a);
    NoneIsNoNumber(b);
    assert |multiset(a)| == |a| && |multiset(b)| == |b|;
    if a != [] && b != [] {
      ReadCompacted(a);
      ReadCompacted(b);
      if multiset(a) == multiset(b) {
        Sorting.SortIgnoresOrder(a, b, AtMost);
      }
    }
  }
}
