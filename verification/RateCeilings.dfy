/** The physical rate ceilings of the fatal guards: per link, per ordered pair and per endpoint, accumulated in one pass
    with an early exit.  Rates are exact numbers here. */
module RateCeilings {

  datatype Direction = Tx | Rx

  /** One link with its raw counter deltas in KiB. */
  datatype Link = Link(gpu: int, remote: int, tx: int, rx: int)

  function Rate(l: Link, d: Direction, elapsed: real): real
    requires elapsed > 0.0
  {
    (if d.Tx? then l.tx else l.rx) as real * 1024.0 / (elapsed * 1000.0)
  }

  function PairRate(links: seq<Link>, elapsed: real, gpu: int, remote: int, d: Direction): real
    requires elapsed > 0.0
  {
    if links == [] then 0.0
    else
      var k := |links| - 1;
      PairRate(links[..k], elapsed, gpu, remote, d)
      + if links[k].gpu == gpu && links[k].remote == remote then Rate(links[k], d, elapsed) else 0.0
  }

  function EndpointRate(links: seq<Link>, elapsed: real, gpu: int, d: Direction): real
    requires elapsed > 0.0
  {
    if links == [] then 0.0
    else
      var k := |links| - 1;
      EndpointRate(links[..k], elapsed, gpu, d) + if links[k].gpu == gpu then Rate(links[k], d, elapsed) else 0.0
  }

  ghost predicate LinksPass(links: seq<Link>, elapsed: real)
    requires elapsed > 0.0
  {
    forall i, d :: 0 <= i < |links| ==> Rate(links[i], d, elapsed) <= 25.25
  }

  /** All three ceilings, over the whole list. */
  ghost predicate CeilingsPass(links: seq<Link>, elapsed: real)
    requires elapsed > 0.0
  {
    && LinksPass(links, elapsed)
    && (forall gpu, remote, d :: PairRate(links, elapsed, gpu, remote, d) <= 101.0)
    && (forall gpu, d :: EndpointRate(links, elapsed, gpu, d) <= 303.0)
  }

  function Get<K>(m: map<K, real>, key: K): real { if key in m then m[key] else 0.0 }

  /** The accumulators hold exactly the sums over the links seen so far. */
  ghost predicate Tallied(links: seq<Link>, elapsed: real, pairs: map<(int, int, Direction), real>,
                          ends: map<(int, Direction), real>)
    requires elapsed > 0.0
  {
    && (forall gpu, remote, d :: Get(pairs, (gpu, remote, d)) == PairRate(links, elapsed, gpu, remote, d))
    && (forall gpu, d :: Get(ends, (gpu, d)) == EndpointRate(links, elapsed, gpu, d))
  }

  method RateCeilingsPass(links: seq<Link>, elapsed: real) returns (pass: bool)
    requires elapsed > 0.0
    ensures pass <==> CeilingsPass(links, elapsed)
  {
    hide Rate;
    var pairs: map<(int, int, Direction), real> := map[];
    var ends: map<(int, Direction), real> := map[];
    for i := 0 to |links|
      invariant LinksPass(links[..i], elapsed)
      invariant Tallied(links[..i], elapsed, pairs, ends)
    {
      var l := links[i];
      var tx, rx := Rate(l, Tx, elapsed), Rate(l, Rx, elapsed);
      if tx > 25.25 || rx > 25.25 {
        return false;
      }
      assert links[..i + 1][..i] == links[..i];
      TallyLink(links[..i + 1], elapsed, pairs, ends);
      OneMoreLink(links[..i + 1], elapsed);
      var pt, pr := (l.gpu, l.remote, Tx), (l.gpu, l.remote, Rx);
      var et, er := (l.gpu, Tx), (l.gpu, Rx);
      pairs := pairs[pt := Get(pairs, pt) + tx][pr := Get(pairs, pr) + rx];
      ends := ends[et := Get(ends, et) + tx][er := Get(ends, er) + rx];
    }
    assert links[..|links|] == links;
    pass := (forall k :: k in pairs ==> pairs[k] <= 101.0) && (forall k :: k in ends ==> ends[k] <= 303.0);
    MaximaDecide(links, elapsed, pairs, ends);
  }

  lemma {:induction false} OneMoreLink(links: seq<Link>, elapsed: real)
    requires elapsed > 0.0 && links != [] && LinksPass(links[..|links| - 1], elapsed)
    requires Rate(links[|links| - 1], Tx, elapsed) <= 25.25 && Rate(links[|links| - 1], Rx, elapsed) <= 25.25
    ensures LinksPass(links, elapsed)
  {
    hide Rate;
    forall i, d | 0 <= i < |links|
      ensures Rate(links[i], d, elapsed) <= 25.25
    {
      if i < |links| - 1 {
        assert links[i] == links[..|links| - 1][i];
      }
      match d
      case Tx =>
      case Rx =>
    }
  }

  lemma {:induction false} TallyLink(links: seq<Link>, elapsed: real, pairs: map<(int, int, Direction), real>,
                                    ends: map<(int, Direction), real>)
    requires elapsed > 0.0 && links != [] && Tallied(links[..|links| - 1], elapsed, pairs, ends)
    ensures var l := links[|links| - 1];
            var tx, rx := Rate(l, Tx, elapsed), Rate(l, Rx, elapsed);
            var pt, pr := (l.gpu, l.remote, Tx), (l.gpu, l.remote, Rx);
            var et, er := (l.gpu, Tx), (l.gpu, Rx);
            Tallied(links, elapsed, pairs[pt := Get(pairs, pt) + tx][pr := Get(pairs, pr) + rx],
                    ends[et := Get(ends, et) + tx][er := Get(ends, er) + rx])
  {
    hide Rate;
    var front, l := links[..|links| - 1], links[|links| - 1];
    var tx, rx := Rate(l, Tx, elapsed), Rate(l, Rx, elapsed);
    var pt, pr := (l.gpu, l.remote, Tx), (l.gpu, l.remote, Rx);
    var et, er := (l.gpu, Tx), (l.gpu, Rx);
    var pairs' := pairs[pt := Get(pairs, pt) + tx][pr := Get(pairs, pr) + rx];
    var ends' := ends[et := Get(ends, et) + tx][er := Get(ends, er) + rx];
    forall gpu, remote, d
      ensures Get(pairs', (gpu, remote, d)) == PairRate(links, elapsed, gpu, remote, d)
    {
      assert Get(pairs, (gpu, remote, d)) == PairRate(front, elapsed, gpu, remote, d);
      match d
      case Tx =>
      case Rx =>
    }
    forall gpu, d
      ensures Get(ends', (gpu, d)) == EndpointRate(links, elapsed, gpu, d)
    {
      assert Get(ends, (gpu, d)) == EndpointRate(front, elapsed, gpu, d);
      match d
      case Tx =>
      case Rx =>
    }
  }

  /** Checking the stored maxima is checking every pair and endpoint: those without an entry have rate zero. */
  lemma {:induction false} MaximaDecide(links: seq<Link>, elapsed: real, pairs: map<(int, int, Direction), real>,
                                       ends: map<(int, Direction), real>)
    requires elapsed > 0.0 && Tallied(links, elapsed, pairs, ends)
    ensures (forall k :: k in pairs ==> pairs[k] <= 101.0)
            <==> forall gpu, remote, d :: PairRate(links, elapsed, gpu, remote, d) <= 101.0
    ensures (forall k :: k in ends ==> ends[k] <= 303.0)
            <==> forall gpu, d :: EndpointRate(links, elapsed, gpu, d) <= 303.0
  {
    PairMaximum(links, elapsed, pairs, ends);
    EndpointMaximum(links, elapsed, pairs, ends);
  }

  lemma {:induction false} PairMaximum(links: seq<Link>, elapsed: real, pairs: map<(int, int, Direction), real>,
                                      ends: map<(int, Direction), real>)
    requires elapsed > 0.0 && Tallied(links, elapsed, pairs, ends)
    ensures (forall k :: k in pairs ==> pairs[k] <= 101.0)
            <==> forall gpu, remote, d :: PairRate(links, elapsed, gpu, remote, d) <= 101.0
  {
    hide PairRate, EndpointRate;
    if k :| k in pairs && pairs[k] > 101.0 {
      assert Get(pairs, (k.0, k.1, k.2)) == PairRate(links, elapsed, k.0, k.1, k.2);
    } else {
      forall gpu, remote, d
        ensures PairRate(links, elapsed, gpu, remote, d) <= 101.0
      {
        var k := (gpu, remote, d);
        assert Get(pairs, (gpu, remote, d)) == PairRate(links, elapsed, gpu, remote, d);
        assert k in pairs ==> pairs[k] <= 101.0;
      }
    }
  }

  lemma {:induction false} EndpointMaximum(links: seq<Link>, elapsed: real, pairs: map<(int, int, Direction), real>,
                                          ends: map<(int, Direction), real>)
    requires elapsed > 0.0 && Tallied(links, elapsed, pairs, ends)
    ensures (forall k :: k in ends ==> ends[k] <= 303.0)
            <==> forall gpu, d :: EndpointRate(links, elapsed, gpu, d) <= 303.0
  {
    hide PairRate, EndpointRate;
    if k :| k in ends && ends[k] > 303.0 {
      assert Get(ends, (k.0, k.1)) == EndpointRate(links, elapsed, k.0, k.1);
    } else {
      forall gpu, d
        ensures EndpointRate(links, elapsed, gpu, d) <= 303.0
      {
        var k := (gpu, d);
        assert Get(ends, (gpu, d)) == EndpointRate(links, elapsed, gpu, d);
        assert k in ends ==> ends[k] <= 303.0;
      }
    }
  }

  // ----- On a four-link mesh the pair and endpoint ceilings add nothing -----

  function PairLinks(links: seq<Link>, gpu: int, remote: int): nat {
    if links == [] then 0
    else
      var k := |links| - 1;
      PairLinks(links[..k], gpu, remote) + if links[k].gpu == gpu && links[k].remote == remote then 1 else 0
  }

  function EndpointLinks(links: seq<Link>, gpu: int): nat {
    if links == [] then 0
    else
      var k := |links| - 1;
      EndpointLinks(links[..k], gpu) + if links[k].gpu == gpu then 1 else 0
  }

  lemma {:induction false} SumsBounded(links: seq<Link>, elapsed: real, gpu: int, remote: int, d: Direction)
    requires elapsed > 0.0 && LinksPass(links, elapsed)
    ensures PairRate(links, elapsed, gpu, remote, d) <= 25.25 * PairLinks(links, gpu, remote) as real
    ensures EndpointRate(links, elapsed, gpu, d) <= 25.25 * EndpointLinks(links, gpu) as real
  {
    hide Rate;
    if links != [] {
      var k := |links| - 1;
      assert Rate(links[k], d, elapsed) <= 25.25;
      assert LinksPass(links[..k], elapsed) by {
        forall i, e | 0 <= i < k
          ensures Rate(links[..k][i], e, elapsed) <= 25.25
        {
          assert links[..k][i] == links[i];
        }
      }
      SumsBounded(links[..k], elapsed, gpu, remote, d);
    }
  }

  /** With at most four links to each peer and twelve at each endpoint, the guard is the per-link ceiling alone. */
  lemma {:induction false} MeshNeedsOnlyLinkCeiling(links: seq<Link>, elapsed: real)
    requires elapsed > 0.0
    requires forall gpu, remote :: PairLinks(links, gpu, remote) <= 4
    requires forall gpu :: EndpointLinks(links, gpu) <= 12
    ensures CeilingsPass(links, elapsed) <==> LinksPass(links, elapsed)
  {
    hide PairRate, EndpointRate, PairLinks, EndpointLinks, Rate;
    if LinksPass(links, elapsed) {
      forall gpu, remote, d
        ensures PairRate(links, elapsed, gpu, remote, d) <= 101.0
        ensures EndpointRate(links, elapsed, gpu, d) <= 303.0
      {
        SumsBounded(links, elapsed, gpu, remote, d);
        assert PairLinks(links, gpu, remote) <= 4 && EndpointLinks(links, gpu) <= 12;
      }
      forall gpu, d
        ensures EndpointRate(links, elapsed, gpu, d) <= 303.0
      {
        SumsBounded(links, elapsed, gpu, 0, d);
        assert EndpointLinks(links, gpu) <= 12;
      }
    }
  }

  /** A rate in gigabytes per second: at that rate, the bytes of the counter take the elapsed microseconds. */
  lemma {:induction false} RateMeaning(l: Link, d: Direction, elapsed: real, gigabytes: real)
    requires elapsed > 0.0
    ensures var kib := match d case Tx => l.tx case Rx => l.rx;
            Rate(l, d, elapsed) == gigabytes <==> gigabytes * 1000.0 * elapsed == (kib * 1024) as real
  {
    var kib := match d case Tx => l.tx case Rx => l.rx;
    var bytes, unit := kib as real * 1024.0, elapsed * 1000.0;
    assert (kib * 1024) as real == bytes;
    assert gigabytes * 1000.0 * elapsed == gigabytes * unit;
    assert Rate(l, d, elapsed) * unit == bytes;
    if gigabytes * unit == bytes {
      assert (Rate(l, d, elapsed) - gigabytes) * unit == 0.0;
    }
  }
}
