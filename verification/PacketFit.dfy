/** The candidate-blind packet fit: an exhaustive search over payload limits and header sizes, accepted only when both
    producers agree on one strict minimum and every row stays within its counter quantum. */
module PacketFit {
  import opened Sorting
  import opened Options

  /** The fields of an observation the fit reads. */
  datatype Row = Row(ordinal: nat, producer: string, rawBytes: int, dataBytes: int, flows: nat, payload: nat,
                     messages: int, links: nat)

  const WRITER := "persistent_sm_peer_write"
  const READER := "dependent_sm_peer_read"
  const COPIER := "copy_engine_reference"

  function CeilDiv(a: nat, b: nat): (q: nat)
    requires b > 0
    ensures q * b >= a && (q == 0 || (q - 1) * b < a)
  {
    if a == 0 then 0
    else
      assert a - 1 == (a - 1) / b * b + (a - 1) % b;
      (a - 1) / b + 1
  }

  function Abs(x: int): nat { if x < 0 then -x else x }

  function Residual(row: Row, limit: nat, header: nat): nat
    requires limit > 0
  {
    var observed := if row.rawBytes - row.dataBytes > 0 then row.rawBytes - row.dataBytes else 0;
    var flowCount := if row.flows > 1 then row.flows else 1;
    Abs(observed - CeilDiv(row.payload, limit) * header * row.messages * flowCount)
  }

  function Allowance(row: Row): nat { if row.links * 1024 > 1024 then row.links * 1024 else 1024 }

  function Total(rows: seq<Row>, limit: nat, header: nat): nat
    requires limit > 0
  {
    if rows == [] then 0 else Residual(rows[0], limit, header) + Total(rows[1..], limit, header)
  }

  // ----- The grid and its ranking -----

  const GRID_SIZE: nat := 33024

  predicate InGrid(limit: nat, header: nat) { 16 <= limit <= 4096 && limit % 16 == 0 && header <= 128 }

  function LimitAt(n: nat): (limit: nat)
    ensures limit > 0
  {
    16 * (n / 129 + 1)
  }

  function HeaderAt(n: nat): nat { n % 129 }

  type Entry = (nat, nat, nat)

  function EntryAt(rows: seq<Row>, n: nat): Entry { (Total(rows, LimitAt(n), HeaderAt(n)), LimitAt(n), HeaderAt(n)) }

  function Ranking(rows: seq<Row>): seq<Entry> { seq(GRID_SIZE, n requires 0 <= n < GRID_SIZE => EntryAt(rows, n)) }

  /** Tuples are compared component by component. */
  predicate EntryLe(x: Entry, y: Entry) {
    x.0 < y.0 || (x.0 == y.0 && (x.1 < y.1 || (x.1 == y.1 && x.2 <= y.2)))
  }

  function Ranked(rows: seq<Row>): seq<Entry> { Sort(Ranking(rows), EntryLe) }

  lemma {:induction false} GridPoint(n: nat)
    requires n < GRID_SIZE
    ensures InGrid(LimitAt(n), HeaderAt(n))
  {
  }

  lemma {:induction false} GridIndex(limit: nat, header: nat) returns (n: nat)
    requires InGrid(limit, header)
    ensures n < GRID_SIZE && LimitAt(n) == limit && HeaderAt(n) == header
  {
    var k := limit / 16 - 1;
    n := 129 * k + header;
    assert n / 129 == k && n % 129 == header;
  }

  lemma {:induction false} GridDistinct(m: nat, n: nat)
    requires LimitAt(m) == LimitAt(n) && HeaderAt(m) == HeaderAt(n)
    ensures m == n
  {
    assert m == 129 * (m / 129) + m % 129;
    assert n == 129 * (n / 129) + n % 129;
  }

  lemma {:induction false} OccursOnce<T>(s: seq<T>, x: T)
    requires forall i, j :: 0 <= i < j < |s| ==> s[i] != s[j]
    ensures multiset(s)[x] <= 1
  {
    if s != [] {
      OccursOnce(s[1..], x);
      assert s == [s[0]] + s[1..];
      if s[0] == x {
        assert forall j :: 0 <= j < |s[1..]| ==> s[1..][j] == s[j + 1];
        assert x !in s[1..];
      }
    }
  }

  /** The ranking in order: it starts with the least entry and never repeats one. */
  lemma {:induction false} RankedShape(rows: seq<Row>)
    ensures |Ranked(rows)| == GRID_SIZE
    ensures Sorted(Ranked(rows), EntryLe)
    ensures forall e :: e in Ranked(rows) <==> exists n :: 0 <= n < GRID_SIZE && EntryAt(rows, n) == e
    ensures Ranked(rows)[0] != Ranked(rows)[1]
  {
    hide EntryAt, Sort;
    var ranking, ranked := Ranking(rows), Ranked(rows);
    assert TotalOrderOn(Elements(ranking), EntryLe);
    SortPermutes(ranking, EntryLe);
    SortSorts(ranking, EntryLe);
    PermutationSameElements(ranked, ranking);
    assert forall n :: 0 <= n < GRID_SIZE ==> ranking[n] == EntryAt(rows, n);
    NoRepeats(rows);
    OccursOnce(ranking, ranked[0]);
    StartsTwice(ranked);
  }

  lemma {:induction false} StartsTwice<T>(s: seq<T>)
    requires |s| >= 2
    ensures s[0] == s[1] ==> multiset(s)[s[0]] >= 2
  {
    assert s == [s[0]] + ([s[1]] + s[2..]);
  }

  lemma {:induction false} NoRepeats(rows: seq<Row>)
    ensures forall i, j :: 0 <= i < j < GRID_SIZE ==> Ranking(rows)[i] != Ranking(rows)[j]
  {
    hide LimitAt, HeaderAt, Total;
    forall i, j | 0 <= i < j < GRID_SIZE
      ensures Ranking(rows)[i] != Ranking(rows)[j]
    {
      if LimitAt(i) == LimitAt(j) && HeaderAt(i) == HeaderAt(j) {
        GridDistinct(i, j);
      }
    }
  }

  /** Strictly better than every other grid point. */
  ghost predicate StrictMinimum(rows: seq<Row>, limit: nat, header: nat) {
    && InGrid(limit, header)
    && forall l: nat, h: nat :: InGrid(l, h) && (l, h) != (limit, header) ==>
                                  Total(rows, limit, header) < Total(rows, l, h)
  }

  predicate Unique(ranked: seq<Entry>)
    requires |ranked| >= 2
  {
    ranked[1].0 > ranked[0].0
  }

  /** Best entry strictly ahead of the runner-up means strictly ahead of the whole grid, and conversely. */
  lemma {:induction false} BestIsStrictMinimum(rows: seq<Row>, limit: nat, header: nat)
    requires limit > 0
    ensures |Ranked(rows)| == GRID_SIZE
    ensures Unique(Ranked(rows)) && Ranked(rows)[0].1 == limit && Ranked(rows)[0].2 == header
            <==> StrictMinimum(rows, limit, header)
  {
    hide Total, Ranked, InGrid, LimitAt, HeaderAt;
    RankedShape(rows);
    var ranked := Ranked(rows);
    if Unique(ranked) && ranked[0].1 == limit && ranked[0].2 == header {
      UniqueIsStrict(rows, ranked, limit, header);
    }
    if StrictMinimum(rows, limit, header) {
      StrictIsFirst(rows, ranked, limit, header);
    }
  }

  lemma {:induction false} UniqueIsStrict(rows: seq<Row>, ranked: seq<Entry>, limit: nat, header: nat)
    requires |ranked| == GRID_SIZE && Sorted(ranked, EntryLe)
    requires forall e :: e in ranked <==> exists n :: 0 <= n < GRID_SIZE && EntryAt(rows, n) == e
    requires Unique(ranked) && ranked[0].1 == limit && ranked[0].2 == header
    ensures StrictMinimum(rows, limit, header)
  {
    hide Total, LimitAt, HeaderAt;
    assert ranked[0] in ranked;
    var m :| 0 <= m < GRID_SIZE && EntryAt(rows, m) == ranked[0];
    GridPoint(m);
    forall l: nat, h: nat | InGrid(l, h) && (l, h) != (limit, header)
      ensures Total(rows, limit, header) < Total(rows, l, h)
    {
      var n := GridIndex(l, h);
      assert EntryAt(rows, n) in ranked;
      var i :| 0 <= i < |ranked| && ranked[i] == EntryAt(rows, n);
      assert i > 0;
      assert i == 1 || EntryLe(ranked[1], ranked[i]);
    }
  }

  lemma {:induction false} StrictIsFirst(rows: seq<Row>, ranked: seq<Entry>, limit: nat, header: nat)
    requires |ranked| == GRID_SIZE && Sorted(ranked, EntryLe) && ranked[0] != ranked[1]
    requires forall e :: e in ranked <==> exists n :: 0 <= n < GRID_SIZE && EntryAt(rows, n) == e
    requires StrictMinimum(rows, limit, header)
    ensures Unique(ranked) && ranked[0].1 == limit && ranked[0].2 == header
  {
    hide Total, InGrid, LimitAt, HeaderAt;
    var n := GridIndex(limit, header);
    assert EntryAt(rows, n) in ranked;
    var i :| 0 <= i < |ranked| && ranked[i] == EntryAt(rows, n);
    assert i == 0 || EntryLe(ranked[0], ranked[i]);
    assert ranked[0] in ranked && ranked[1] in ranked;
    var a :| 0 <= a < GRID_SIZE && EntryAt(rows, a) == ranked[0];
    var b :| 0 <= b < GRID_SIZE && EntryAt(rows, b) == ranked[1];
    GridPoint(a);
    GridPoint(b);
  }

  // ----- The verdict -----

  function Training(rows: seq<Row>, producer: string): seq<Row> {
    if rows == [] then []
    else (if 1 <= rows[0].ordinal <= 15 && rows[0].producer == producer then [rows[0]] else [])
         + Training(rows[1..], producer)
  }

  function Holdout(rows: seq<Row>, producer: string): seq<Row> {
    if rows == [] then []
    else (if rows[0].ordinal == 16 && rows[0].producer == producer then [rows[0]] else [])
         + Holdout(rows[1..], producer)
  }

  function CopyRows(rows: seq<Row>): seq<Row> {
    if rows == [] then []
    else (if 1 <= rows[0].ordinal <= 16 && rows[0].producer == COPIER then [rows[0]] else []) + CopyRows(rows[1..])
  }

  predicate Within(rows: seq<Row>, limit: nat, header: nat)
    requires limit > 0
  {
    forall i :: 0 <= i < |rows| ==> Residual(rows[i], limit, header) <= Allowance(rows[i])
  }

  /** The rows the verdict looks at. */
  predicate Available(rows: seq<Row>) {
    && Training(rows, WRITER) != [] && Holdout(rows, WRITER) != []
    && Training(rows, READER) != [] && Holdout(rows, READER) != []
  }

  predicate AllWithin(rows: seq<Row>, limit: nat, header: nat)
    requires limit > 0
  {
    && Within(Training(rows, WRITER), limit, header) && Within(Training(rows, READER), limit, header)
    && Within(Holdout(rows, WRITER), limit, header) && Within(Holdout(rows, READER), limit, header)
    && CopyRows(rows) != [] && Within(CopyRows(rows), limit, header)
  }

  /** The pair the fit identifies, if any. */
  method ScorePacketFit(rows: seq<Row>) returns (fit: Option<(nat, nat)>)
    ensures fit.Some? ==> IsIdentified(rows, fit.value.0, fit.value.1)
    ensures fit.None? ==> forall limit: nat, header: nat :: !IsIdentified(rows, limit, header)
  {
    hide Ranked, Total, Training, Holdout, CopyRows, Residual, StrictMinimum, Available, AllWithin, HasRow, IsEvidence;
    VerdictMeaning(rows);
    forall limit: nat, header: nat | limit > 0
      ensures AllWithin(rows, limit, header) <==>
                CopyRows(rows) != []
                && forall r :: r in rows && IsEvidence(r) ==> Residual(r, limit, header) <= Allowance(r)
    {
      WithinMeaning(rows, limit, header);
    }
    if !Available(rows) {
      return None;
    }
    var writer, reader := Ranked(Training(rows, WRITER)), Ranked(Training(rows, READER));
    RankedShape(Training(rows, WRITER));
    RankedShape(Training(rows, READER));
    forall limit: nat, header: nat | limit > 0
      ensures Unique(writer) && writer[0].1 == limit && writer[0].2 == header
              <==> StrictMinimum(Training(rows, WRITER), limit, header)
      ensures Unique(reader) && reader[0].1 == limit && reader[0].2 == header
              <==> StrictMinimum(Training(rows, READER), limit, header)
    {
      BestIsStrictMinimum(Training(rows, WRITER), limit, header);
      BestIsStrictMinimum(Training(rows, READER), limit, header);
    }
    forall limit: nat, header: nat | StrictMinimum(Training(rows, WRITER), limit, header)
      ensures limit > 0
    {
      StrictMinimumInGrid(Training(rows, WRITER), limit, header);
    }
    LimitsPositive(Training(rows, WRITER));
    if (writer[0].1, writer[0].2) != (reader[0].1, reader[0].2) {
      return None;
    }
    var limit, header := writer[0].1, writer[0].2;
    if Unique(writer) && Unique(reader) && AllWithin(rows, limit, header) {
      fit := Some((limit, header));
    } else {
      fit := None;
    }
  }

  lemma {:induction false} StrictMinimumInGrid(rows: seq<Row>, limit: nat, header: nat)
    requires StrictMinimum(rows, limit, header)
    ensures limit > 0
  {
  }

  lemma {:induction false} LimitsPositive(rows: seq<Row>)
    ensures |Ranked(rows)| == GRID_SIZE && Ranked(rows)[0].1 > 0
  {
    hide Ranked, LimitAt, HeaderAt, Total;
    RankedShape(rows);
    assert Ranked(rows)[0] in Ranked(rows);
    var n :| 0 <= n < GRID_SIZE && EntryAt(rows, n) == Ranked(rows)[0];
  }

  /** Some row of the producer has an ordinal between `lo` and `hi`. */
  ghost predicate HasRow(rows: seq<Row>, producer: string, lo: nat, hi: nat) {
    exists r :: r in rows && r.producer == producer && lo <= r.ordinal <= hi
  }

  /** The rows a verdict rests on: the first sixteen cases of the two producers and the copy engine. */
  predicate IsEvidence(r: Row) {
    1 <= r.ordinal <= 16
    && r.producer in {"persistent_sm_peer_write", "dependent_sm_peer_read", "copy_engine_reference"}
  }

  /** Identified: training and holdout rows of both producers and copy-engine rows are there, the pair is the strict
      minimum over the training rows of each producer, and every evidence row is within its allowance. */
  ghost predicate IsIdentified(rows: seq<Row>, limit: nat, header: nat) {
    && HasRow(rows, WRITER, 1, 15) && HasRow(rows, WRITER, 16, 16)
    && HasRow(rows, READER, 1, 15) && HasRow(rows, READER, 16, 16)
    && HasRow(rows, COPIER, 1, 16)
    && StrictMinimum(Training(rows, WRITER), limit, header)
    && StrictMinimum(Training(rows, READER), limit, header)
    && limit > 0 && forall r :: r in rows && IsEvidence(r) ==> Residual(r, limit, header) <= Allowance(r)
  }

  /** The program's lists and tests, in terms of the rows. */
  lemma {:induction false} VerdictMeaning(rows: seq<Row>)
    ensures Available(rows) <==> HasRow(rows, WRITER, 1, 15) && HasRow(rows, WRITER, 16, 16)
                                 && HasRow(rows, READER, 1, 15) && HasRow(rows, READER, 16, 16)
    ensures CopyRows(rows) != [] <==> HasRow(rows, COPIER, 1, 16)
  {
    hide Training, Holdout, CopyRows;
    SomeTraining(rows, WRITER);
    SomeTraining(rows, READER);
    SomeHoldout(rows, WRITER);
    SomeHoldout(rows, READER);
    SomeCopy(rows);
  }

  lemma {:induction false} SomeTraining(rows: seq<Row>, producer: string)
    ensures Training(rows, producer) != [] <==> HasRow(rows, producer, 1, 15)
  {
    hide Training;
    if Training(rows, producer) != [] {
      var r := Training(rows, producer)[0];
      InTraining(rows, producer, r);
    }
    if r :| r in rows && r.producer == producer && 1 <= r.ordinal <= 15 {
      InTraining(rows, producer, r);
    }
  }

  lemma {:induction false} SomeHoldout(rows: seq<Row>, producer: string)
    ensures Holdout(rows, producer) != [] <==> HasRow(rows, producer, 16, 16)
  {
    hide Holdout;
    if Holdout(rows, producer) != [] {
      var r := Holdout(rows, producer)[0];
      InHoldout(rows, producer, r);
    }
    if r :| r in rows && r.producer == producer && 16 <= r.ordinal <= 16 {
      InHoldout(rows, producer, r);
    }
  }

  lemma {:induction false} SomeCopy(rows: seq<Row>)
    ensures CopyRows(rows) != [] <==> HasRow(rows, COPIER, 1, 16)
  {
    hide CopyRows;
    if CopyRows(rows) != [] {
      var r := CopyRows(rows)[0];
      InCopyRows(rows, r);
    }
    if r :| r in rows && r.producer == COPIER && 1 <= r.ordinal <= 16 {
      InCopyRows(rows, r);
    }
  }

  lemma {:induction false} InTraining(rows: seq<Row>, producer: string, r: Row)
    ensures r in Training(rows, producer) <==> r in rows && 1 <= r.ordinal <= 15 && r.producer == producer
  {
    hide Training;
    TrainingRows(rows, producer, r);
    assert r in rows <==> multiset(rows)[r] > 0;
    assert r in Training(rows, producer) <==> multiset(Training(rows, producer))[r] > 0;
  }

  lemma {:induction false} InHoldout(rows: seq<Row>, producer: string, r: Row)
    ensures r in Holdout(rows, producer) <==> r in rows && r.ordinal == 16 && r.producer == producer
  {
    hide Holdout;
    HoldoutRows(rows, producer, r);
    assert r in rows <==> multiset(rows)[r] > 0;
    assert r in Holdout(rows, producer) <==> multiset(Holdout(rows, producer))[r] > 0;
  }

  lemma {:induction false} InCopyRows(rows: seq<Row>, r: Row)
    ensures r in CopyRows(rows) <==> r in rows && 1 <= r.ordinal <= 16 && r.producer == COPIER
  {
    hide CopyRows;
    CopyEngineRows(rows, r);
    assert r in rows <==> multiset(rows)[r] > 0;
    assert r in CopyRows(rows) <==> multiset(CopyRows(rows))[r] > 0;
  }

  lemma {:induction false} WithinMeaning(rows: seq<Row>, limit: nat, header: nat)
    requires limit > 0
    ensures AllWithin(rows, limit, header) <==>
              CopyRows(rows) != []
              && forall r :: r in rows && IsEvidence(r) ==> Residual(r, limit, header) <= Allowance(r)
  {
    hide Training, Holdout, CopyRows, Residual;
    forall r
      ensures r in rows && IsEvidence(r) <==>
                || r in Training(rows, WRITER) || r in Training(rows, READER)
                || r in Holdout(rows, WRITER) || r in Holdout(rows, READER) || r in CopyRows(rows)
    {
      InTraining(rows, WRITER, r);
      InTraining(rows, READER, r);
      InHoldout(rows, WRITER, r);
      InHoldout(rows, READER, r);
      InCopyRows(rows, r);
    }
    AllIn(Training(rows, WRITER), limit, header);
    AllIn(Training(rows, READER), limit, header);
    AllIn(Holdout(rows, WRITER), limit, header);
    AllIn(Holdout(rows, READER), limit, header);
    AllIn(CopyRows(rows), limit, header);
  }

  lemma {:induction false} AllIn(rows: seq<Row>, limit: nat, header: nat)
    requires limit > 0
    ensures Within(rows, limit, header) <==> forall r :: r in rows ==> Residual(r, limit, header) <= Allowance(r)
  {
  }

  lemma {:induction false} IdentifiedPairIsUnique(rows: seq<Row>, l1: nat, h1: nat, l2: nat, h2: nat)
    requires IsIdentified(rows, l1, h1) && IsIdentified(rows, l2, h2)
    ensures l1 == l2 && h1 == h2
  {
    hide Total, Training, HasRow, Residual;
    if (l1, h1) != (l2, h2) {
      StrictBeats(Training(rows, WRITER), l1, h1, l2, h2);
      StrictBeats(Training(rows, WRITER), l2, h2, l1, h1);
      assert false;
    }
  }

  lemma {:induction false} StrictBeats(rows: seq<Row>, limit: nat, header: nat, l: nat, h: nat)
    requires StrictMinimum(rows, limit, header) && InGrid(l, h) && (l != limit || h != header)
    ensures Total(rows, limit, header) < Total(rows, l, h)
  {
    hide Total;
  }

  // ----- What uniqueness forces -----

  lemma {:induction false} SameTotals(rows: seq<Row>, l1: nat, h1: nat, l2: nat, h2: nat)
    requires l1 > 0 && l2 > 0
    requires forall r :: r in rows ==> Residual(r, l1, h1) == Residual(r, l2, h2)
    ensures Total(rows, l1, h1) == Total(rows, l2, h2)
  {
    hide Residual;
    if rows != [] {
      assert rows[0] in rows;
      SameTotals(rows[1..], l1, h1, l2, h2);
    }
  }

  lemma {:induction false} ZeroHeaderIgnoresLimit(row: Row, l1: nat, l2: nat)
    requires l1 > 0 && l2 > 0
    ensures Residual(row, l1, 0) == Residual(row, l2, 0)
  {
    var flowCount := if row.flows > 1 then row.flows else 1;
    ZeroProduct(CeilDiv(row.payload, l1), row.messages, flowCount);
    ZeroProduct(CeilDiv(row.payload, l2), row.messages, flowCount);
  }

  lemma {:induction false} ZeroProduct(a: int, b: int, c: int)
    ensures a * 0 * b * c == 0
  {
    assert a * 0 == 0;
  }

  lemma {:induction false} OnePacketIgnoresLimit(row: Row, l1: nat, l2: nat, header: nat)
    requires 0 < l1 <= l2 && row.payload <= l1
    ensures Residual(row, l1, header) == Residual(row, l2, header)
  {
    assert CeilDiv(row.payload, l1) == CeilDiv(row.payload, l2) by {
      OnePacket(row.payload, l1);
      OnePacket(row.payload, l2);
    }
  }

  lemma {:induction false} OnePacket(payload: nat, limit: nat)
    requires limit > 0 && payload <= limit
    ensures CeilDiv(payload, limit) == if payload == 0 then 0 else 1
  {
  }

  /** An identified header is never zero, and the identified payload limit is either the largest on the grid or smaller
      than some training payload of each producer: otherwise a second grid point would fit equally well. */
  lemma {:induction false} IdentifiedPairIsInformative(rows: seq<Row>, limit: nat, header: nat)
    requires IsIdentified(rows, limit, header)
    ensures header != 0
    ensures limit == 4096
            || ((exists r :: r in Training(rows, WRITER) && r.payload > limit)
                && (exists r :: r in Training(rows, READER) && r.payload > limit))
  {
    hide Total, Training, HasRow, Residual;
    MinimumIsInformative(Training(rows, WRITER), limit, header);
    MinimumIsInformative(Training(rows, READER), limit, header);
  }

  lemma {:induction false} MinimumIsInformative(rows: seq<Row>, limit: nat, header: nat)
    requires StrictMinimum(rows, limit, header)
    ensures header != 0
    ensures limit == 4096 || exists r :: r in rows && r.payload > limit
  {
    hide Total, Residual;
    if header == 0 {
      var l := if limit == 16 then 32 else 16;
      forall r | r in rows
        ensures Residual(r, limit, 0) == Residual(r, l, 0)
      {
        ZeroHeaderIgnoresLimit(r, limit, l);
      }
      StrictBeats(rows, limit, header, l, 0);
      SameTotals(rows, limit, 0, l, 0);
      assert false;
    }
    if limit != 4096 && forall r :: r in rows ==> r.payload <= limit {
      var l := limit + 16;
      forall r | r in rows
        ensures Residual(r, limit, header) == Residual(r, l, header)
      {
        OnePacketIgnoresLimit(r, limit, l, header);
      }
      StrictBeats(rows, limit, header, l, header);
      SameTotals(rows, limit, header, l, header);
      assert false;
    }
  }

  // ----- What a residual means, and what the fit recovers -----

  /** `packets` packets of at most `limit` bytes carry the payload, and one less would not. */
  ghost predicate Carries(packets: nat, payload: nat, limit: nat) {
    packets * limit >= payload && forall n: nat :: n * limit >= payload ==> packets <= n
  }

  /** Flows without a ledger count as one. */
  ghost predicate Streams(row: Row, flows: nat) {
    (row.flows >= 1 && flows == row.flows) || (row.flows == 0 && flows == 1)
  }

  lemma {:induction false} LeastPackets(packets: nat, payload: nat, limit: nat)
    requires limit > 0 && Carries(packets, payload, limit)
    ensures packets == CeilDiv(payload, limit)
  {
    var q := CeilDiv(payload, limit);
    assert packets <= q;
    if packets < q {
      MorePackets(packets, q - 1, limit);
    }
  }

  lemma {:induction false} MorePackets(a: nat, b: nat, limit: nat)
    requires a <= b
    ensures a * limit <= b * limit
  {
  }

  /** The residual is the distance, in bytes, of the counted overhead from the headers of the packets it takes.  An
      overhead cannot be negative: lost bytes count as no overhead. */
  lemma {:induction false} ResidualMeaning(row: Row, limit: nat, header: nat, packets: nat, flows: nat, e: int)
    requires limit > 0 && Carries(packets, row.payload, limit) && Streams(row, flows)
    requires row.rawBytes - row.dataBytes == packets * header * row.messages * flows + e
    ensures row.rawBytes >= row.dataBytes ==> Residual(row, limit, header) == if e < 0 then -e else e
    ensures row.rawBytes < row.dataBytes ==>
              Residual(row, limit, header) == Abs(packets * header * row.messages * flows)
  {
    LeastPackets(packets, row.payload, limit);
  }

  /** Counters produced by packets of `limit` bytes with `header` bytes each. */
  ghost predicate Generated(row: Row, limit: nat, header: nat) {
    row.messages >= 1
    && exists packets: nat, flows: nat ::
         && Carries(packets, row.payload, limit) && Streams(row, flows)
         && row.rawBytes == row.dataBytes + packets * header * row.messages * flows
  }

  lemma {:induction false} GeneratedFits(row: Row, limit: nat, header: nat)
    requires limit > 0 && Generated(row, limit, header)
    ensures Residual(row, limit, header) == 0
  {
    var packets: nat, flows: nat :| Carries(packets, row.payload, limit) && Streams(row, flows)
      && row.rawBytes == row.dataBytes + packets * header * row.messages * flows;
    OverheadCounts(packets, header, row.messages, flows);
    ResidualMeaning(row, limit, header, packets, flows, 0);
  }

  lemma {:induction false} OverheadCounts(a: nat, b: nat, c: int, d: nat)
    requires c >= 1
    ensures a * b * c * d >= 0
  {
    assert a * b >= 0;
    assert a * b * c >= 0;
  }

  /** A generated row fits another pair only if the headers of its packets add up to the same bytes. */
  lemma {:induction false} SameOverhead(row: Row, limit: nat, header: nat, l: nat, h: nat)
    requires limit > 0 && l > 0 && Generated(row, limit, header) && Residual(row, l, h) == 0
    ensures CeilDiv(row.payload, l) * h == CeilDiv(row.payload, limit) * header
  {
    var packets: nat, flows: nat :| Carries(packets, row.payload, limit) && Streams(row, flows)
      && row.rawBytes == row.dataBytes + packets * header * row.messages * flows;
    LeastPackets(packets, row.payload, limit);
    OverheadCounts(packets, header, row.messages, flows);
    var x, y := CeilDiv(row.payload, l) * h, packets * header;
    var observed := row.rawBytes - row.dataBytes;
    assert Abs(observed - x * row.messages * flows) == 0;
    assert x * row.messages * flows == y * row.messages * flows;
    Cancel(x, y, row.messages, flows);
  }

  lemma {:induction false} Cancel(x: int, y: int, c: int, d: int)
    requires c >= 1 && d >= 1 && x * c * d == y * c * d
    ensures x == y
  {
    CancelOne(x * c, y * c, d);
    CancelOne(x, y, c);
  }

  lemma {:induction false} CancelOne(x: int, y: int, d: int)
    requires d >= 1 && x * d == y * d
    ensures x == y
  {
    assert (x - y) * d == 0;
  }

  /** A payload of exactly the limit and one just above it tell every other pair apart. */
  lemma {:induction false} TwoPayloadsDecide(limit: nat, header: nat, l: nat, h: nat)
    requires limit > 0 && header > 0 && l > 0
    requires CeilDiv(limit, l) * h == header && CeilDiv(limit + 1, l) * h == 2 * header
    ensures l == limit && h == header
  {
    var a, b := CeilDiv(limit, l), CeilDiv(limit + 1, l);
    NextPayload(limit, l);
    assert b == a || b == a + 1;
    assert b * h == 2 * (a * h);
    assert a * h > 0 && h > 0;
    assert b == 2 * a by { CancelOne(b, 2 * a, h); }
    assert a == 1 && b == 2;
    assert l >= limit && l < limit + 1;
  }

  lemma {:induction false} NextPayload(payload: nat, l: nat)
    requires l > 0
    ensures CeilDiv(payload + 1, l) == CeilDiv(payload, l) || CeilDiv(payload + 1, l) == CeilDiv(payload, l) + 1
  {
    var a, b := CeilDiv(payload, l), CeilDiv(payload + 1, l);
    assert (a + 1) * l == a * l + l >= payload + 1;
    if b > a + 1 {
      MorePackets(a + 1, b - 1, l);
    }
    if b < a {
      MorePackets(b, a - 1, l);
    }
  }

  /** Rows of one producer that decide a pair. */
  ghost predicate Decisive(rows: seq<Row>, limit: nat, header: nat) {
    && (forall r :: r in rows ==> Generated(r, limit, header))
    && (exists r :: r in rows && r.payload == limit) && (exists r :: r in rows && r.payload == limit + 1)
  }

  lemma {:induction false} TotalZero(rows: seq<Row>, l: nat, h: nat)
    requires l > 0
    ensures Total(rows, l, h) == 0 <==> forall r :: r in rows ==> Residual(r, l, h) == 0
  {
    hide Residual;
    if rows != [] {
      TotalZero(rows[1..], l, h);
      assert rows == [rows[0]] + rows[1..];
      assert forall r :: r in rows <==> r == rows[0] || r in rows[1..];
    }
  }

  lemma {:induction false} DecisiveMinimum(rows: seq<Row>, limit: nat, header: nat)
    requires InGrid(limit, header) && header > 0 && Decisive(rows, limit, header)
    ensures StrictMinimum(rows, limit, header)
  {
    hide Total, Residual, Generated, CeilDiv;
    forall r | r in rows
      ensures Residual(r, limit, header) == 0
    {
      GeneratedFits(r, limit, header);
    }
    TotalZero(rows, limit, header);
    forall l: nat, h: nat | InGrid(l, h) && (l, h) != (limit, header)
      ensures Total(rows, limit, header) < Total(rows, l, h)
    {
      OthersMiss(rows, limit, header, l, h);
    }
  }

  lemma {:induction false} OthersMiss(rows: seq<Row>, limit: nat, header: nat, l: nat, h: nat)
    requires limit > 0 && header > 0 && l > 0 && Decisive(rows, limit, header) && (l, h) != (limit, header)
    ensures Total(rows, l, h) > 0
  {
    hide Total, Residual, Generated, CeilDiv;
    TotalZero(rows, l, h);
    var r :| r in rows && r.payload == limit;
    var s :| s in rows && s.payload == limit + 1;
    if Residual(r, l, h) == 0 && Residual(s, l, h) == 0 {
      SameOverhead(r, limit, header, l, h);
      SameOverhead(s, limit, header, l, h);
      OneAndTwo(limit);
      TwoPayloadsDecide(limit, header, l, h);
    }
  }

  lemma {:induction false} OneAndTwo(limit: nat)
    requires limit > 0
    ensures CeilDiv(limit, limit) == 1 && CeilDiv(limit + 1, limit) == 2
  {
    var b := CeilDiv(limit + 1, limit);
    OnePacket(limit, limit);
    NextPayload(limit, limit);
  }

  /** The fit recovers the truth: if all rows were generated by one pair of the grid with a header, and the training
      rows of each producer hold a payload of exactly the limit and one just above it, then that pair is the one and
      only identified pair. */
  lemma {:induction false} GeneratedPairIsIdentified(rows: seq<Row>, limit: nat, header: nat, l: nat, h: nat)
    requires InGrid(limit, header) && header > 0 && (forall r :: r in rows ==> Generated(r, limit, header))
    requires Decisive(Training(rows, WRITER), limit, header) && Decisive(Training(rows, READER), limit, header)
    requires Holdout(rows, WRITER) != [] && Holdout(rows, READER) != [] && CopyRows(rows) != []
    ensures IsIdentified(rows, l, h) <==> l == limit && h == header
  {
    hide Training, Holdout, CopyRows, StrictMinimum, Generated, Residual, Total, HasRow;
    DecisiveMinimum(Training(rows, WRITER), limit, header);
    DecisiveMinimum(Training(rows, READER), limit, header);
    AllGeneratedFit(rows, limit, header);
    VerdictMeaning(rows);
    if IsIdentified(rows, l, h) {
      IdentifiedPairIsUnique(rows, l, h, limit, header);
    }
  }

  lemma {:induction false} AllGeneratedFit(rows: seq<Row>, limit: nat, header: nat)
    requires limit > 0 && forall r :: r in rows ==> Generated(r, limit, header)
    ensures forall r :: r in rows ==> Residual(r, limit, header) <= Allowance(r)
  {
    hide Generated, Residual;
    forall r | r in rows
      ensures Residual(r, limit, header) <= Allowance(r)
    {
      GeneratedFits(r, limit, header);
    }
  }

  /** The training rows of a producer: ordinals 1 to 15, each row as often as it occurs. */
  lemma {:induction false} TrainingRows(rows: seq<Row>, producer: string, r: Row)
    ensures multiset(Training(rows, producer))[r]
         == if 0 < r.ordinal < 16 && r.producer == producer then multiset(rows)[r] else 0
    ensures r in Training(rows, producer) ==> r in rows
  {
    if rows != [] {
      TrainingRows(rows[1..], producer, r);
      assert rows == [rows[0]] + rows[1..];
    }
  }

  /** The blind holdout of a producer: ordinal 16. */
  lemma {:induction false} HoldoutRows(rows: seq<Row>, producer: string, r: Row)
    ensures multiset(Holdout(rows, producer))[r]
         == if 15 < r.ordinal < 17 && r.producer == producer then multiset(rows)[r] else 0
    ensures r in Holdout(rows, producer) ==> r in rows
  {
    if rows != [] {
      HoldoutRows(rows[1..], producer, r);
      assert rows == [rows[0]] + rows[1..];
    }
  }

  /** The copy-engine rows: ordinals 1 to 16. */
  lemma {:induction false} CopyEngineRows(rows: seq<Row>, r: Row)
    ensures multiset(CopyRows(rows))[r]
         == if 0 < r.ordinal < 17 && r.producer == COPIER then multiset(rows)[r] else 0
    ensures r in CopyRows(rows) ==> r in rows
  {
    if rows != [] {
      CopyEngineRows(rows[1..], r);
      assert rows == [rows[0]] + rows[1..];
    }
  }

  /** One quantum per observed link, and one when none was observed. */
  lemma {:induction false} AllowanceMeaning(row: Row)
    ensures Allowance(row) == 1024 * if row.links == 0 then 1 else row.links
  {
  }
}
