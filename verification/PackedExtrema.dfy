/** The fixture form of the retained extrema: artifacts with the same timing share one group, with groups and names
    sorted. */
module PackedExtrema {
  import opened CaptureReplay
  import opened Decimal
  import opened Delimited
  import opened Sorting

  // ----- The canonical key of an entry -----

  function IntText(n: int): string { if n < 0 then "-" + Digits(-n) else Digits(n) }

  function RowText(f: Flow): string {
    "[" + IntText(f.start) + "," + IntText(f.completion) + "," + IntText(f.fct) + "]"
  }

  function RowTexts(w: seq<Flow>): seq<string> { seq(|w|, i requires 0 <= i < |w| => RowText(w[i])) }

  /** Compact JSON of the entry's three-element list, with its final newline. */
  function Canonical(e: Entry): string {
    "[" + IntText(e.job) + "," + IntText(e.count) + ",[" + Join(",", RowTexts(e.witnesses)) + "]]\n"
  }

  const BRACKETS: set<char> := {'[', ']', '\n'}

  ghost function Bare(s: string): string { Without(BRACKETS, s) }

  ghost predicate Clean(s: string) { forall c :: c in s ==> c !in BRACKETS && c != ',' }

  lemma {:induction false} IntTextClean(n: int)
    ensures Clean(IntText(n)) && IntText(n) != ""
  {
    hide Digits;
    DigitsRoundTrip(if n < 0 then -n else n);
  }

  lemma {:induction false} SignShows(n: int)
    ensures IntText(n) != "" && (IntText(n)[0] == '-' <==> n < 0)
    ensures ParseNat(if n < 0 then IntText(n)[1..] else IntText(n)) == if n < 0 then -n else n
  {
    hide Digits, ParseNat;
    DigitsRoundTrip(if n < 0 then -n else n);
    if n < 0 {
      assert ("-" + Digits(-n))[1..] == Digits(-n);
    } else {
      assert Digits(n)[0] in Digits(n);
    }
  }

  lemma {:induction false} IntTextInjective(m: int, n: int)
    requires IntText(m) == IntText(n)
    ensures m == n
  {
    hide IntText, ParseNat;
    SignShows(m);
    SignShows(n);
  }

  /** The numbers of the rows, in reading order. */
  function Numbers(w: seq<Flow>): seq<string> {
    if w == [] then []
    else
      var f := w[|w| - 1];
      Numbers(w[..|w| - 1]) + [IntText(f.start)] + [IntText(f.completion)] + [IntText(f.fct)]
  }

  function Pieces(e: Entry): seq<string> {
    [IntText(e.job), IntText(e.count)] + if e.witnesses == [] then [""] else Numbers(e.witnesses)
  }

  lemma {:induction false} NumbersClean(w: seq<Flow>)
    ensures |Numbers(w)| == 3 * |w|
    ensures forall i :: 0 <= i < |Numbers(w)| ==> Clean(Numbers(w)[i])
  {
    hide Clean, IntText;
    if w != [] {
      var k := |w| - 1;
      NumbersClean(w[..k]);
      IntTextClean(w[k].start);
      IntTextClean(w[k].completion);
      IntTextClean(w[k].fct);
    }
  }

  lemma {:induction false} NumbersInjective(v: seq<Flow>, w: seq<Flow>)
    requires Numbers(v) == Numbers(w)
    ensures v == w
  {
    hide IntText;
    NumbersClean(v);
    NumbersClean(w);
    if w != [] {
      var k := |w| - 1;
      var s, t := Numbers(v), Numbers(w);
      assert s[..3 * k] == Numbers(v[..k]) && t[..3 * k] == Numbers(w[..k]) by {
        NumbersClean(v[..k]);
        NumbersClean(w[..k]);
      }
      NumbersInjective(v[..k], w[..k]);
      assert s[3 * k..] == [IntText(v[k].start), IntText(v[k].completion), IntText(v[k].fct)];
      assert t[3 * k..] == [IntText(w[k].start), IntText(w[k].completion), IntText(w[k].fct)];
      IntTextInjective(v[k].start, w[k].start);
      IntTextInjective(v[k].completion, w[k].completion);
      IntTextInjective(v[k].fct, w[k].fct);
      assert v == v[..k] + [v[k]] && w == w[..k] + [w[k]];
    }
  }

  lemma {:induction false} BareAppend(s: string, t: string)
    ensures Bare(s + t) == Bare(s) + Bare(t)
  {
    WithoutAppend(BRACKETS, s, t);
  }

  lemma {:induction false} BareClean(s: string)
    requires forall c :: c in s ==> c !in BRACKETS
    ensures Bare(s) == s
  {
    WithoutNothing(BRACKETS, s);
  }

  lemma BarePunctuation()
    ensures Bare("[") == "" && Bare("]") == "" && Bare(",") == "," && Bare(",[") == "," && Bare("]]\n") == ""
  {
    hide Bare, Without;
    BareOne('[');
    BareOne(']');
    BareOne('\n');
    BareOne(',');
    BareAppend(",", "[");
    BareAppend("]", "]");
    BareAppend("]]", "\n");
    assert "," + "[" == ",[" && "]" + "]" == "]]" && "]]" + "\n" == "]]\n";
  }

  lemma {:induction false} BareOne(c: char)
    ensures Bare([c]) == if c in BRACKETS then "" else [c]
  {
    assert [c][..0] == "" && "" + [c] == [c];
    assert Without(BRACKETS, "") == "";
  }

  lemma {:induction false} BareRow(f: Flow)
    ensures Bare(RowText(f)) == IntText(f.start) + "," + IntText(f.completion) + "," + IntText(f.fct)
  {
    hide Bare, IntText;
    var a, b, c := IntText(f.start), IntText(f.completion), IntText(f.fct);
    BarePunctuation();
    IntTextClean(f.start);
    IntTextClean(f.completion);
    IntTextClean(f.fct);
    BareClean(a);
    BareClean(b);
    BareClean(c);
    BareAppend("[", a);
    BareAppend("[" + a, ",");
    BareAppend("[" + a + ",", b);
    BareAppend("[" + a + "," + b, ",");
    BareAppend("[" + a + "," + b + ",", c);
    BareAppend("[" + a + "," + b + "," + c, "]");
  }

  lemma {:induction false} BareRows(w: seq<Flow>)
    requires w != []
    ensures Bare(Join(",", RowTexts(w))) == Join(",", Numbers(w))
  {
    hide Bare, Join, IntText, RowText;
    var k := |w| - 1;
    var a, b, c := IntText(w[k].start), IntText(w[k].completion), IntText(w[k].fct);
    BareRow(w[k]);
    if k == 0 {
      assert RowTexts(w) == [RowText(w[0])] && w[..0] == [];
      assert Numbers(w) == [a] + [b] + [c];
      JoinOne(",", RowText(w[0]));
      JoinOne(",", a);
      JoinSnoc(",", [a], b);
      JoinSnoc(",", [a] + [b], c);
    } else {
      BareRows(w[..k]);
      NumbersClean(w[..k]);
      var rows, nums := RowTexts(w[..k]), Numbers(w[..k]);
      assert RowTexts(w) == rows + [RowText(w[k])];
      JoinSnoc(",", rows, RowText(w[k]));
      BarePunctuation();
      BareAppend(Join(",", rows), ",");
      BareAppend(Join(",", rows) + ",", RowText(w[k]));
      JoinSnoc(",", nums, a);
      JoinSnoc(",", nums + [a], b);
      JoinSnoc(",", nums + [a] + [b], c);
    }
  }

  lemma {:induction false} JoinOne(sep: string, s: string)
    ensures Join(sep, [s]) == s && Join(sep, []) == ""
  {
  }

  lemma {:induction false} JoinTwo(sep: string, a: string, b: string, rest: seq<string>)
    requires rest != []
    ensures Join(sep, [a, b] + rest) == a + sep + b + sep + Join(sep, rest)
  {
    hide Join;
    var k := |rest| - 1;
    assert [a, b] + rest == ([a, b] + rest[..k]) + [rest[k]];
    JoinSnoc(sep, [a, b] + rest[..k], rest[k]);
    if k == 0 {
      assert rest[..k] == [] && rest == [rest[0]];
      JoinOne(sep, a);
      JoinOne(sep, rest[0]);
      JoinSnoc(sep, [a], b);
      assert [a] + [b] == [a, b] == [a, b] + rest[..k];
    } else {
      JoinTwo(sep, a, b, rest[..k]);
      assert rest == rest[..k] + [rest[k]];
      JoinSnoc(sep, rest[..k], rest[k]);
    }
  }

  /** Without its brackets the key is the comma-separated list of its numbers. */
  lemma {:induction false} BareCanonical(e: Entry)
    ensures Bare(Canonical(e)) == Join(",", Pieces(e))
  {
    hide Bare, Join, IntText, RowTexts;
    var a, b, rows := IntText(e.job), IntText(e.count), Join(",", RowTexts(e.witnesses));
    BarePunctuation();
    IntTextClean(e.job);
    IntTextClean(e.count);
    BareClean(a);
    BareClean(b);
    BareAppend("[", a);
    BareAppend("[" + a, ",");
    BareAppend("[" + a + ",", b);
    BareAppend("[" + a + "," + b, ",[");
    BareAppend("[" + a + "," + b + ",[", rows);
    BareAppend("[" + a + "," + b + ",[" + rows, "]]\n");
    BareRowsOrNone(e.witnesses);
    NumbersClean(e.witnesses);
    JoinTwo(",", a, b, if e.witnesses == [] then [""] else Numbers(e.witnesses));
  }

  lemma {:induction false} BareRowsOrNone(w: seq<Flow>)
    ensures Bare(Join(",", RowTexts(w))) == Join(",", if w == [] then [""] else Numbers(w))
  {
    hide Bare, Join;
    if w == [] {
      JoinOne(",", "");
      assert RowTexts(w) == [];
      BareClean("");
    } else {
      BareRows(w);
    }
  }

  /** Different entries have different keys. */
  lemma {:induction false} CanonicalInjective(d: Entry, e: Entry)
    requires Canonical(d) == Canonical(e)
    ensures d == e
  {
    hide Canonical, Bare, Join, IntText, Split, Numbers;
    BareCanonical(d);
    BareCanonical(e);
    PiecesSplit(d);
    PiecesSplit(e);
    var s, t := Pieces(d), Pieces(e);
    assert s == t;
    NumbersClean(d.witnesses);
    NumbersClean(e.witnesses);
    IntTextInjective(d.job, e.job);
    IntTextInjective(d.count, e.count);
    assert s[2..] == t[2..];
    if d.witnesses != [] && e.witnesses != [] {
      assert s[2..] == Numbers(d.witnesses) && t[2..] == Numbers(e.witnesses);
      NumbersInjective(d.witnesses, e.witnesses);
    }
  }

  lemma {:induction false} PiecesSplit(e: Entry)
    ensures Split(',', Join(",", Pieces(e))) == Pieces(e)
    ensures Pieces(e)[0] == IntText(e.job) && Pieces(e)[1] == IntText(e.count)
  {
    hide Split, Join, IntText, Numbers;
    IntTextClean(e.job);
    IntTextClean(e.count);
    NumbersClean(e.witnesses);
    var pieces := Pieces(e);
    forall i | 0 <= i < |pieces|
      ensures ',' !in pieces[i]
    {
      assert Clean(pieces[i]);
    }
    SplitJoin(',', pieces);
    assert "," == [','];
  }

  // ----- Packing -----

  datatype Group = Group(timing: Entry, artifacts: seq<string>)

  ghost function Keys(groups: seq<Group>): seq<string> {
    seq(|groups|, i requires 0 <= i < |groups| => Canonical(groups[i].timing))
  }

  ghost predicate Ascending(s: seq<string>) { Sorted(s, TextLe) && Distinct(s) }

  /** Groups in key order, names in order within a group, and together exactly the entries of `m`. */
  ghost predicate Packs(groups: seq<Group>, m: map<string, Entry>) {
    && Ascending(Keys(groups))
    && (forall i :: 0 <= i < |groups| ==> Ascending(groups[i].artifacts) && groups[i].artifacts != [])
    && (forall i, n :: 0 <= i < |groups| && n in groups[i].artifacts ==> n in m && m[n] == groups[i].timing)
    && (forall n :: n in m ==> exists i :: 0 <= i < |groups| && n in groups[i].artifacts)
  }

  /** The state of the grouping loop after some of the names. */
  ghost predicate Grouped(keys: seq<string>, groups: map<string, seq<string>>, values: map<string, Entry>,
                          done: seq<string>, m: map<string, Entry>) {
    && Distinct(keys)
    && (forall k :: k in keys <==> k in groups)
    && (forall k :: k in groups ==> k in values && Canonical(values[k]) == k && Distinct(groups[k]) && groups[k] != [])
    && (forall k, n :: k in groups && n in groups[k] ==> n in done && n in m && m[n] == values[k])
    && (forall n :: n in done ==> n in m && Canonical(m[n]) in groups && n in groups[Canonical(m[n])])
  }

  lemma {:induction false} GroupStep(keys: seq<string>, groups: map<string, seq<string>>, values: map<string, Entry>,
                                     done: seq<string>, m: map<string, Entry>, name: string)
    requires Grouped(keys, groups, values, done, m) && name in m && name !in done
    ensures var key := Canonical(m[name]);
            var before := if key in groups then groups[key] else [];
            Grouped(if key in groups then keys else keys + [key], groups[key := before + [name]],
                    values[key := m[name]], done + [name], m)
  {
    hide Canonical;
    var key := Canonical(m[name]);
    if key in groups {
      CanonicalInjective(values[key], m[name]);
    }
  }

  /** The grouping of a retained dictionary, in its insertion order. */
  method Pack(kept: Retained) returns (out: seq<Group>)
    requires kept.Valid()
    ensures Packs(out, kept.entries)
  {
    hide Canonical, Grouped, Packs, Distinct;
    var keys: seq<string>, groups: map<string, seq<string>>, values: map<string, Entry> := [], map[], map[];
    NothingGrouped(kept.entries);
    for i := 0 to |kept.names|
      invariant Grouped(keys, groups, values, kept.names[..i], kept.entries)
    {
      var name := kept.names[i];
      NotYet(kept.names, i);
      GroupStep(keys, groups, values, kept.names[..i], kept.entries, name);
      assert kept.names[..i + 1] == kept.names[..i] + [name];
      var key := Canonical(kept.entries[name]);
      if key in groups {
        groups := groups[key := groups[key] + [name]];
      } else {
        keys := keys + [key];
        groups := groups[key := [] + [name]];
      }
      values := values[key := kept.entries[name]];
    }
    assert kept.names[..|kept.names|] == kept.names;
    GroupedMeaning(keys, groups, values, kept.names, kept.entries);
    var sorted := Sort(keys, TextLe);
    out := seq(|sorted|, i requires 0 <= i < |sorted| =>
      assert sorted[i] in sorted; Group(values[sorted[i]], Sort(groups[sorted[i]], TextLe)));
    FinishPack(keys, groups, values, kept.names, kept.entries, out);
  }

  lemma {:induction false} NothingGrouped(m: map<string, Entry>)
    ensures Grouped([], map[], map[], [], m)
  {
  }

  lemma {:induction false} NotYet(names: seq<string>, i: nat)
    requires Distinct(names) && i < |names|
    ensures names[i] in names && names[i] !in names[..i]
  {
  }

  lemma {:induction false} GroupedMeaning(keys: seq<string>, groups: map<string, seq<string>>,
                                          values: map<string, Entry>, done: seq<string>, m: map<string, Entry>)
    requires Grouped(keys, groups, values, done, m)
    ensures forall k :: k in Sort(keys, TextLe) ==> k in groups && k in values
    ensures Ascending(Sort(keys, TextLe))
    ensures forall k :: k in Sort(keys, TextLe) <==> k in keys
  {
    hide Canonical;
    TextOrder(Elements(keys));
    SortDistinct(keys, TextLe);
  }

  lemma {:induction false} FinishPack(keys: seq<string>, groups: map<string, seq<string>>, values: map<string, Entry>,
                                     done: seq<string>, m: map<string, Entry>, out: seq<Group>)
    requires Grouped(keys, groups, values, done, m) && (forall n :: n in m ==> n in done)
    requires |out| == |Sort(keys, TextLe)|
    requires forall i :: 0 <= i < |out| ==>
               var k := Sort(keys, TextLe)[i];
               k in groups && k in values && out[i] == Group(values[k], Sort(groups[k], TextLe))
    ensures Packs(out, m)
  {
    hide Canonical, Sort, Ascending, Distinct;
    var sorted := Sort(keys, TextLe);
    GroupedMeaning(keys, groups, values, done, m);
    assert Keys(out) == sorted;
    forall i | 0 <= i < |out|
      ensures Ascending(out[i].artifacts) && out[i].artifacts != []
      ensures forall n :: n in out[i].artifacts ==> n in m && m[n] == out[i].timing
    {
      SortedNames(groups[sorted[i]]);
    }
    forall n | n in m
      ensures exists i :: 0 <= i < |out| && n in out[i].artifacts
    {
      var k := Canonical(m[n]);
      assert k in sorted;
      var i :| 0 <= i < |sorted| && sorted[i] == k;
      SortedNames(groups[k]);
      assert n in out[i].artifacts;
    }
  }

  lemma {:induction false} SortedNames(names: seq<string>)
    requires Distinct(names) && names != []
    ensures Ascending(Sort(names, TextLe)) && Sort(names, TextLe) != []
    ensures forall n :: n in Sort(names, TextLe) <==> n in names
  {
    TextOrder(Elements(names));
    SortDistinct(names, TextLe);
  }

  // ----- One packed form per dictionary -----

  lemma {:induction false} KeyOfSome(groups: seq<Group>, m: map<string, Entry>, k: string)
    requires Packs(groups, m)
    ensures k in Keys(groups) <==> exists n :: n in m && Canonical(m[n]) == k
  {
    hide Canonical, Ascending;
    if k in Keys(groups) {
      var i :| 0 <= i < |groups| && Keys(groups)[i] == k;
      var n := groups[i].artifacts[0];
      assert n in groups[i].artifacts;
      assert n in m && Canonical(m[n]) == k;
    }
    if n :| n in m && Canonical(m[n]) == k {
      var i :| 0 <= i < |groups| && n in groups[i].artifacts;
      assert Keys(groups)[i] == k;
    }
  }

  /** The names of a group are exactly those whose entry has its key. */
  lemma {:induction false} NamesOfKey(groups: seq<Group>, m: map<string, Entry>, i: nat, n: string)
    requires Packs(groups, m) && i < |groups|
    ensures n in groups[i].artifacts <==> n in m && Canonical(m[n]) == Keys(groups)[i]
  {
    hide Canonical, Sorted;
    if n in m && Canonical(m[n]) == Keys(groups)[i] {
      var j :| 0 <= j < |groups| && n in groups[j].artifacts;
      assert Keys(groups)[j] == Keys(groups)[i];
    }
  }

  /** The packed form depends on the entries alone, not on the order in which they were captured. */
  lemma {:induction false} PackIgnoresOrder(a: seq<Group>, b: seq<Group>, m: map<string, Entry>)
    requires Packs(a, m) && Packs(b, m)
    ensures a == b
  {
    hide Canonical, Packs;
    forall k
      ensures k in Keys(a) <==> k in Keys(b)
    {
      KeyOfSome(a, m, k);
      KeyOfSome(b, m, k);
    }
    AscendingOf(a, m);
    AscendingOf(b, m);
    TextOrder(Elements(Keys(a)));
    SortedSetUnique(Keys(a), Keys(b), TextLe);
    assert |a| == |Keys(a)| && |b| == |Keys(b)|;
    forall i | 0 <= i < |a|
      ensures a[i] == b[i]
    {
      SameGroup(a, b, m, i);
    }
  }

  lemma {:induction false} AscendingOf(groups: seq<Group>, m: map<string, Entry>)
    requires Packs(groups, m)
    ensures Ascending(Keys(groups))
    ensures forall i :: 0 <= i < |groups| ==> Ascending(groups[i].artifacts)
  {
  }

  lemma {:induction false} SameGroup(a: seq<Group>, b: seq<Group>, m: map<string, Entry>, i: nat)
    requires Packs(a, m) && Packs(b, m) && i < |a| == |b| && Keys(a) == Keys(b)
    ensures a[i] == b[i]
  {
    hide Canonical, Packs;
    assert Keys(a)[i] == Keys(b)[i];
    CanonicalInjective(a[i].timing, b[i].timing);
    forall n
      ensures n in a[i].artifacts <==> n in b[i].artifacts
    {
      NamesOfKey(a, m, i, n);
      NamesOfKey(b, m, i, n);
    }
    AscendingOf(a, m);
    AscendingOf(b, m);
    TextOrder(Elements(a[i].artifacts));
    SortedSetUnique(a[i].artifacts, b[i].artifacts, TextLe);
  }

  // ----- Unpacking -----

  /** Later groups win, as in the dictionary comprehension. */
  function Unpack(groups: seq<Group>): map<string, Entry> {
    if groups == [] then map[]
    else
      var g := groups[|groups| - 1];
      Unpack(groups[..|groups| - 1]) + map n | n in g.artifacts :: g.timing
  }

  lemma {:induction false} UnpackMeaning(groups: seq<Group>, n: string)
    ensures n in Unpack(groups) <==> exists i :: 0 <= i < |groups| && n in groups[i].artifacts
    ensures n in Unpack(groups) ==>
              exists i :: 0 <= i < |groups| && n in groups[i].artifacts && Unpack(groups)[n] == groups[i].timing
  {
    if groups != [] {
      var k := |groups| - 1;
      var front := groups[..k];
      UnpackMeaning(front, n);
      if i :| 0 <= i < k && n in front[i].artifacts {
        assert n in groups[i].artifacts;
      }
      if n in groups[k].artifacts {
        assert Unpack(groups)[n] == groups[k].timing;
      } else if n in Unpack(front) {
        var i :| 0 <= i < k && n in front[i].artifacts && Unpack(front)[n] == front[i].timing;
        assert n in groups[i].artifacts && Unpack(groups)[n] == groups[i].timing;
      }
      if n in Unpack(groups) && n !in groups[k].artifacts {
        assert n in Unpack(front);
      }
      if i :| 0 <= i < |groups| && n in groups[i].artifacts {
        if i < k {
          assert n in front[i].artifacts;
        }
      }
    }
  }

  /** Unpacking gives back the dictionary that was packed. */
  lemma {:induction false} UnpackPack(groups: seq<Group>, m: map<string, Entry>)
    requires Packs(groups, m)
    ensures Unpack(groups) == m
  {
    hide Canonical, Unpack, Ascending;
    var u := Unpack(groups);
    forall n
      ensures n in u <==> n in m
      ensures n in u ==> u[n] == m[n]
    {
      UnpackMeaning(groups, n);
      if n in u {
        var i :| 0 <= i < |groups| && n in groups[i].artifacts && u[n] == groups[i].timing;
        assert n in m;
      }
      if n in m {
        var i :| 0 <= i < |groups| && n in groups[i].artifacts;
      }
    }
  }

  /** The key of a one-row entry, spelled out. */
  lemma {:induction false} CanonicalOfOneRow(job: int, count: nat, f: Flow)
    ensures Canonical(Entry(job, count, [f]))
         == "[" + IntText(job) + "," + IntText(count) + ",[[" + IntText(f.start) + "," + IntText(f.completion) + ","
            + IntText(f.fct) + "]]]\n"
  {
    hide IntText;
    var e := Entry(job, count, [f]);
    assert RowTexts(e.witnesses) == [RowText(f)];
    JoinOne(",", RowText(f));
    assert ",[" + "[" == ",[[" && "]" + "]]\n" == "]]]\n";
  }
}
