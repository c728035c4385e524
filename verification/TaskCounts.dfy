/** The per-module counts of the progress table: closed and open ids split by the prefixes each module owns. */
module TaskCounts {

  /** Prefix lists in table order. */
  const OWNERS: seq<set<string>> := [
    {"CORE", "BRIDGE"}, {"DEPLOY"}, {"WORK"}, {"COMP"}, {"PLACE"}, {"TRAF"}, {"GOAL"}, {"PLAY"},
    {"BACK", "HTSIM", "ATLAHS"}, {"VLLM"}, {"SGL"}]

  /** The prefixes both scanners recognise. */
  const PREFIXES: set<string> := {
    "CORE", "DEPLOY", "WORK", "COMP", "PLACE", "TRAF", "GOAL", "PLAY", "BACK", "VLLM", "SGL", "BRIDGE", "HTSIM",
    "ATLAHS"}

  /** The module documents in table order. */
  const MODULES: seq<string> := [
    "core", "deploy", "workload", "compute", "placement", "traffic", "goal", "preplay", "backends", "adapters-vllm",
    "adapters-sglang"]

  /** The document a prefix belongs to. */
  function ModuleOf(prefix: string): string {
    match prefix
    case "CORE" => "core"
    case "BRIDGE" => "core"
    case "DEPLOY" => "deploy"
    case "WORK" => "workload"
    case "COMP" => "compute"
    case "PLACE" => "placement"
    case "TRAF" => "traffic"
    case "GOAL" => "goal"
    case "PLAY" => "preplay"
    case "BACK" => "backends"
    case "HTSIM" => "backends"
    case "ATLAHS" => "backends"
    case "VLLM" => "adapters-vllm"
    case "SGL" => "adapters-sglang"
    case _ => ""
  }

  /** Each row of the table holds exactly the prefixes of its module. */
  lemma {:induction false} RowsFollowModules(i: nat, p: string)
    requires i < |OWNERS|
    ensures |MODULES| == |OWNERS|
    ensures p in OWNERS[i] ==> p in PREFIXES && ModuleOf(p) == MODULES[i]
  {
  }

  /** Everything before the last hyphen, or the whole text when there is none. */
  function PrefixOf(id: string): string {
    if '-' !in id then id
    else if id[|id| - 1] == '-' then id[..|id| - 1]
    else assert '-' in id[..|id| - 1]; PrefixOf(id[..|id| - 1])
  }

  /** The prefix of a scanned id is the one the scanner matched. */
  lemma {:induction false} PrefixOfScanned(prefix: string, digits: string)
    requires '-' !in digits
    ensures PrefixOf(prefix + "-" + digits) == prefix
  {
    var id := prefix + "-" + digits;
    assert id[|prefix|] == '-';
    if digits == "" {
      assert id[..|id| - 1] == prefix;
    } else {
      var front := digits[..|digits| - 1];
      assert id[..|id| - 1] == prefix + "-" + front;
      assert id[|id| - 1] == digits[|digits| - 1];
      assert '-' !in front;
      PrefixOfScanned(prefix, front);
    }
  }

  lemma {:induction false} PrefixOfPlain(id: string)
    ensures '-' !in id ==> PrefixOf(id) == id
  {
  }

  function Owned(ids: set<string>, prefixes: set<string>): set<string> {
    set i | i in ids && PrefixOf(i) in prefixes
  }

  datatype Row = Row(closed: nat, registered: nat)

  datatype Outcome =
    | Conflict(ids: set<string>)
    | NothingRegistered  // the percentage divides by the total
    | Table(totalClosed: nat, total: nat, rows: seq<Row>)

  ghost predicate Splits(rows: seq<Row>, open': set<string>, closed: set<string>, owners: seq<set<string>>) {
    && |rows| == |owners|
    && forall i :: 0 <= i < |owners| ==>
         rows[i] == Row(|Owned(closed, owners[i])|, |Owned(closed + open', owners[i])|)
  }

  /** Refused when an id is both open and closed, stuck when there is no id at all, otherwise one row per module. */
  method Render(open': set<string>, closed: set<string>) returns (out: Outcome)
    ensures out.Conflict? <==> open' * closed != {}
    ensures out.Conflict? ==> out.ids == open' * closed
    ensures out.NothingRegistered? <==> open' + closed == {}
    ensures out.Table? ==>
              && out.totalClosed == |closed|
              && out.total == |closed + open'|
              && Splits(out.rows, open', closed, OWNERS)
  {
    hide OWNERS;
    if open' * closed != {} {
      return Conflict(open' * closed);
    }
    DisjointSizes(closed, open');
    if |closed| + |open'| == 0 {
      return NothingRegistered;
    }
    var rows: seq<Row> := [];
    for i := 0 to |OWNERS|
      invariant Splits(rows, open', closed, OWNERS[..i])
    {
      var done, stillOpen := |Owned(closed, OWNERS[i])|, |Owned(open', OWNERS[i])|;
      SplitOwned(open', closed, OWNERS[i]);
      rows := rows + [Row(done, done + stillOpen)];
    }
    assert OWNERS[..|OWNERS|] == OWNERS;
    out := Table(|closed|, |closed| + |open'|, rows);
  }

  lemma {:induction false} DisjointSizes<T>(a: set<T>, b: set<T>)
    requires b * a == {}
    ensures |a + b| == |a| + |b|
  {
    assert |b * a| == 0;
    assert a * b == b * a;
  }

  lemma {:induction false} SplitOwned(open': set<string>, closed: set<string>, prefixes: set<string>)
    requires open' * closed == {}
    ensures |Owned(closed + open', prefixes)| == |Owned(closed, prefixes)| + |Owned(open', prefixes)|
  {
    var a, b := Owned(closed, prefixes), Owned(open', prefixes);
    assert Owned(closed + open', prefixes) == a + b;
    assert b * a <= open' * closed;
    DisjointSizes(a, b);
  }

  // ----- The rows add up -----

  function TotalClosed(rows: seq<Row>): nat {
    if rows == [] then 0 else TotalClosed(rows[..|rows| - 1]) + rows[|rows| - 1].closed
  }

  function TotalRegistered(rows: seq<Row>): nat {
    if rows == [] then 0 else TotalRegistered(rows[..|rows| - 1]) + rows[|rows| - 1].registered
  }

  ghost function Union(owners: seq<set<string>>): set<string>
    decreases |owners|
  {
    if owners == [] then {} else Union(owners[..|owners| - 1]) + owners[|owners| - 1]
  }

  ghost predicate Disjoint(owners: seq<set<string>>) {
    forall i, j :: 0 <= i < j < |owners| ==> owners[i] * owners[j] == {}
  }

  lemma {:induction false} InUnion(owners: seq<set<string>>, p: string)
    ensures p in Union(owners) <==> exists i :: 0 <= i < |owners| && p in owners[i]
    decreases |owners|
  {
    if owners != [] {
      var k := |owners| - 1;
      InUnion(owners[..k], p);
      if i :| 0 <= i < k && p in owners[..k][i] {
        assert p in owners[i];
      }
      if i :| 0 <= i < |owners| && p in owners[i] {
        if i < k {
          assert p in owners[..k][i];
        }
      }
    }
  }

  lemma {:induction false} RowsCountOwned(rows: seq<Row>, open': set<string>, closed: set<string>,
                                          owners: seq<set<string>>)
    requires Disjoint(owners) && Splits(rows, open', closed, owners)
    ensures TotalClosed(rows) == |Owned(closed, Union(owners))|
    ensures TotalRegistered(rows) == |Owned(closed + open', Union(owners))|
    decreases |owners|
  {
    if owners == [] {
      assert Owned(closed, {}) == {} && Owned(closed + open', {}) == {};
    } else {
      var k := |owners| - 1;
      RowsCountOwned(rows[..k], open', closed, owners[..k]);
      LastOwner(closed, owners);
      LastOwner(closed + open', owners);
    }
  }

  lemma {:induction false} LastOwner(ids: set<string>, owners: seq<set<string>>)
    requires owners != [] && Disjoint(owners)
    ensures var k := |owners| - 1;
            |Owned(ids, Union(owners))| == |Owned(ids, Union(owners[..k]))| + |Owned(ids, owners[k])|
  {
    var k := |owners| - 1;
    var front, last := owners[..k], owners[k];
    var a, b := Owned(ids, Union(front)), Owned(ids, last);
    assert Owned(ids, Union(owners)) == a + b;
    forall p | p in Union(front)
      ensures p !in last
    {
      InUnion(front, p);
      var i :| 0 <= i < k && p in front[i];
      assert owners[i] * owners[k] == {};
      assert p !in owners[i] * owners[k];
    }
    assert b * a == {};
    DisjointSizes(a, b);
  }

  lemma OwnersPartitionPrefixes()
    ensures Disjoint(OWNERS)
    ensures Union(OWNERS) == PREFIXES
  {
    forall p
      ensures p in Union(OWNERS) <==> p in PREFIXES
    {
      InUnion(OWNERS, p);
      OwnedByOne(p);
    }
  }

  lemma {:induction false} OwnedByOne(p: string)
    ensures p in PREFIXES <==> exists i :: 0 <= i < |OWNERS| && p in OWNERS[i]
  {
    if p in PREFIXES {
      assert p in OWNERS[0] || p in OWNERS[1] || p in OWNERS[2] || p in OWNERS[3] || p in OWNERS[4] || p in OWNERS[5]
          || p in OWNERS[6] || p in OWNERS[7] || p in OWNERS[8] || p in OWNERS[9] || p in OWNERS[10];
    }
  }

  /** The module rows add up to the headline counts exactly when every id carries a known prefix. */
  lemma {:induction false} RowsAddUpExactlyWhenPrefixesKnown(rows: seq<Row>, open': set<string>, closed: set<string>)
    requires Splits(rows, open', closed, OWNERS)
    ensures TotalClosed(rows) == |closed| <==> forall i :: i in closed ==> PrefixOf(i) in PREFIXES
    ensures TotalRegistered(rows) == |closed + open'| <==>
              forall i :: i in closed + open' ==> PrefixOf(i) in PREFIXES
  {
    hide OWNERS, PREFIXES;
    OwnersPartitionPrefixes();
    RowsCountOwned(rows, open', closed, OWNERS);
    AllOwned(closed);
    AllOwned(closed + open');
  }

  lemma {:induction false} AllOwned(ids: set<string>)
    ensures |Owned(ids, PREFIXES)| == |ids| <==> forall i :: i in ids ==> PrefixOf(i) in PREFIXES
  {
    hide PREFIXES, PrefixOf;
    var owned := Owned(ids, PREFIXES);
    if forall i :: i in ids ==> PrefixOf(i) in PREFIXES {
      assert owned == ids;
    } else {
      var x :| x in ids && PrefixOf(x) !in PREFIXES;
      var rest := ids - {x} - owned;
      assert ids - {x} == owned + rest;
      DisjointSizes(owned, rest);
    }
  }
}
