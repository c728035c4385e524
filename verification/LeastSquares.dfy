/** The two least-squares fits of the studies, over exact reals. */
module LeastSquares {
  import opened Options

  // ----- Sums -----

  function Sum(s: seq<real>): real { if s == [] then 0.0 else Sum(s[..|s| - 1]) + s[|s| - 1] }

  function Mean(s: seq<real>): real
    requires s != []
  {
    Sum(s) / |s| as real
  }

  function Times(a: real, b: real): real { a * b }

  function Deviation(x: real, y: real, a: real, b: real): real { (x - a) * (y - b) }

  /** Sum of the products of deviations. */
  function Cross(xs: seq<real>, ys: seq<real>, a: real, b: real): real
    requires |xs| == |ys|
  {
    if xs == [] then 0.0
    else
      var k := |xs| - 1;
      Cross(xs[..k], ys[..k], a, b) + Deviation(xs[k], ys[k], a, b)
  }

  /** Residual of one point against a line. */
  function Residual(x: real, y: real, slope: real, intercept: real): real { y - (slope * x + intercept) }

  /** Sum of squared residuals. */
  function Ssr(xs: seq<real>, ys: seq<real>, slope: real, intercept: real): real
    requires |xs| == |ys|
  {
    if xs == [] then 0.0
    else
      var k := |xs| - 1;
      var r := Residual(xs[k], ys[k], slope, intercept);
      Ssr(xs[..k], ys[..k], slope, intercept) + Times(r, r)
  }

  // ----- The fits -----

  datatype Fit = Fit(slope: real, intercept: real, r2: real)

  /** The launch-study fit: a flat line when all x agree, R-squared 1 when all y agree; an error for no points or for
      lists of different lengths. */
  function Ols(xs: seq<real>, ys: seq<real>): Option<Fit> {
    if xs == [] || |xs| != |ys| then None
    else
      var mx, my := Mean(xs), Mean(ys);
      var sxx, sxy := Cross(xs, xs, mx, mx), Cross(xs, ys, mx, my);
      var slope := if sxx != 0.0 then sxy / sxx else 0.0;
      var intercept := my - slope * mx;
      var total, left := Cross(ys, ys, my, my), Ssr(xs, ys, slope, intercept);
      Some(Fit(slope, intercept, if total != 0.0 then 1.0 - left / total else 1.0))
  }

  datatype Bandwidth = Finite(value: real) | Infinite

  datatype Score = Score(value: real) | Undefined

  datatype Envelope = Envelope(alpha: real, beta: Bandwidth, r2: Score)

  /** The envelope-study fit: an error for no points or no spread in x; lists of different lengths are paired up to the
      shorter, but the means divide by the number of sizes. */
  function OlsFit(sizes: seq<real>, times: seq<real>): Option<Envelope> {
    if sizes == [] then None
    else
      var n := |sizes| as real;
      var m := if |sizes| <= |times| then |sizes| else |times|;
      var mx, my := Sum(sizes) / n, Sum(times) / n;
      var sxx, sxy := Cross(sizes, sizes, mx, mx), Cross(sizes[..m], times[..m], mx, my);
      if sxx == 0.0 then None
      else
        var slope := sxy / sxx;
        var alpha := my - slope * mx;
        var left, total := Ssr(sizes[..m], times[..m], slope, alpha), Cross(times, times, my, my);
        Some(Envelope(alpha, if slope > 0.0 then Finite(1.0 / slope) else Infinite,
                      if total > 0.0 then Score(1.0 - left / total) else Undefined))
  }

  /** Two different x values. */
  ghost predicate Spread(xs: seq<real>) { exists i, j :: 0 <= i < |xs| && 0 <= j < |xs| && xs[i] != xs[j] }

  ghost predicate OnLine(xs: seq<real>, ys: seq<real>, slope: real, intercept: real)
    requires |xs| == |ys|
  {
    forall i :: 0 <= i < |xs| ==> ys[i] == slope * xs[i] + intercept
  }

  // ----- Squares -----

  lemma {:induction false} Square(r: real)
    ensures Times(r, r) >= 0.0
    ensures Times(r, r) == 0.0 <==> r == 0.0
  {
    if r > 0.0 {
      Product(r, r);
    } else if r < 0.0 {
      Product(-r, -r);
      assert Times(-r, -r) == Times(r, r);
    }
  }

  lemma {:induction false} Product(a: real, b: real)
    requires a > 0.0 && b > 0.0
    ensures Times(a, b) > 0.0
  {
  }

  /** The sum of squared residuals vanishes exactly on the points' own line. */
  lemma {:induction false} SsrZero(xs: seq<real>, ys: seq<real>, slope: real, intercept: real)
    requires |xs| == |ys|
    ensures Ssr(xs, ys, slope, intercept) >= 0.0
    ensures Ssr(xs, ys, slope, intercept) == 0.0 <==> OnLine(xs, ys, slope, intercept)
  {
    hide OnLine, Residual, Times;
    if xs == [] {
      NoPoints(slope, intercept);
    } else {
      var k := |xs| - 1;
      SsrZero(xs[..k], ys[..k], slope, intercept);
      Square(Residual(xs[k], ys[k], slope, intercept));
      OnLineSnoc(xs, ys, slope, intercept);
    }
  }

  lemma {:induction false} NoPoints(slope: real, intercept: real)
    ensures OnLine([], [], slope, intercept)
  {
  }

  lemma {:induction false} OnLineSnoc(xs: seq<real>, ys: seq<real>, slope: real, intercept: real)
    requires |xs| == |ys| && xs != []
    ensures var k := |xs| - 1;
            OnLine(xs, ys, slope, intercept) <==>
              OnLine(xs[..k], ys[..k], slope, intercept) && Residual(xs[k], ys[k], slope, intercept) == 0.0
  {
    var k := |xs| - 1;
    if OnLine(xs[..k], ys[..k], slope, intercept) && Residual(xs[k], ys[k], slope, intercept) == 0.0 {
      forall i | 0 <= i < |xs|
        ensures ys[i] == slope * xs[i] + intercept
      {
        if i < k {
          assert xs[..k][i] == xs[i] && ys[..k][i] == ys[i];
        }
      }
    }
  }

  /** Deviations from a value are residuals against a flat line. */
  lemma {:induction false} CrossIsSsr(ys: seq<real>, m: real, xs: seq<real>)
    requires |xs| == |ys|
    ensures Cross(ys, ys, m, m) == Ssr(xs, ys, 0.0, m)
  {
    if ys != [] {
      var k := |ys| - 1;
      CrossIsSsr(ys[..k], m, xs[..k]);
    }
  }

  // ----- Normal equations -----

  ghost function ResidualSum(xs: seq<real>, ys: seq<real>, p: real, q: real): real
    requires |xs| == |ys|
  {
    if xs == [] then 0.0
    else
      var k := |xs| - 1;
      ResidualSum(xs[..k], ys[..k], p, q) + Residual(xs[k], ys[k], p, q)
  }

  /** Sum of residual times x. */
  ghost function ResidualMoment(xs: seq<real>, ys: seq<real>, p: real, q: real): real
    requires |xs| == |ys|
  {
    if xs == [] then 0.0
    else
      var k := |xs| - 1;
      ResidualMoment(xs[..k], ys[..k], p, q) + Residual(xs[k], ys[k], p, q) * xs[k]
  }

  lemma {:induction false} ResidualSumOf(xs: seq<real>, ys: seq<real>, p: real, q: real)
    requires |xs| == |ys|
    ensures ResidualSum(xs, ys, p, q) == Sum(ys) - p * Sum(xs) - |xs| as real * q
  {
    if xs != [] {
      var k := |xs| - 1;
      ResidualSumOf(xs[..k], ys[..k], p, q);
      assert p * (Sum(xs[..k]) + xs[k]) == p * Sum(xs[..k]) + p * xs[k];
      assert (k + 1) as real * q == k as real * q + q;
    }
  }

  ghost function Combine(p: real, m: real, b: real, c: real, s: real): real { b - p * c + m * s }

  lemma {:induction false} ResidualMomentOf(xs: seq<real>, ys: seq<real>, p: real, q: real, mx: real, my: real)
    requires |xs| == |ys| && q == my - p * mx
    ensures ResidualMoment(xs, ys, p, q)
         == Combine(p, mx, Cross(xs, ys, mx, my), Cross(xs, xs, mx, mx), ResidualSum(xs, ys, p, q))
  {
    hide Residual, Combine, Deviation;
    if xs == [] {
      NothingToCombine(p, mx);
    } else {
      var k := |xs| - 1;
      var front, rest, x, y := xs[..k], ys[..k], xs[k], ys[k];
      var r := Residual(x, y, p, q);
      ResidualMomentOf(front, rest, p, q, mx, my);
      MomentStep(x, y, p, q, mx, my);
      var db, dc := Deviation(x, y, mx, my), Deviation(x, x, mx, mx);
      var b, c, s := Cross(front, rest, mx, my), Cross(front, front, mx, mx), ResidualSum(front, rest, p, q);
      AddUp(p, mx, b, c, s, db, dc, r);
      assert Cross(xs, ys, mx, my) == b + db;
      assert Cross(xs, xs, mx, mx) == c + dc;
      assert ResidualSum(xs, ys, p, q) == s + r;
    }
  }

  lemma {:induction false} NothingToCombine(p: real, m: real)
    ensures Combine(p, m, 0.0, 0.0, 0.0) == 0.0
  {
  }

  lemma {:induction false} AddUp(p: real, m: real, b: real, c: real, s: real, db: real, dc: real, ds: real)
    ensures Combine(p, m, b + db, c + dc, s + ds) == Combine(p, m, b, c, s) + Combine(p, m, db, dc, ds)
  {
    Regroup(p, m, c, dc, s, ds);
  }

  lemma {:induction false} Regroup(p: real, m: real, c: real, d: real, s: real, r: real)
    ensures p * (c + d) == p * c + p * d && m * (s + r) == m * s + m * r
  {
  }

  lemma {:induction false} MomentStep(x: real, y: real, p: real, q: real, mx: real, my: real)
    requires q == my - p * mx
    ensures var r := Residual(x, y, p, q);
            r * x == Combine(p, mx, Deviation(x, y, mx, my), Deviation(x, x, mx, mx), r)
  {
    var r := Residual(x, y, p, q);
    var u, v := x - mx, y - my;
    assert p * x == p * u + p * mx;
    assert r == v - p * u;
    assert r * x == r * u + r * mx;
    assert (p * u) * u == p * (u * u);
    assert r * u == v * u - (p * u) * u;
  }

  lemma {:induction false} MeanOf(s: seq<real>)
    requires s != []
    ensures |s| as real * Mean(s) == Sum(s)
  {
  }

  /** Deviations sum to zero spread exactly when all values agree. */
  lemma {:induction false} NoSpread(xs: seq<real>)
    requires xs != []
    ensures var sxx := Cross(xs, xs, Mean(xs), Mean(xs)); sxx >= 0.0 && (sxx == 0.0 <==> !Spread(xs))
  {
    hide Ssr, Cross;
    var m := Mean(xs);
    CrossIsSsr(xs, m, xs);
    SsrZero(xs, xs, 0.0, m);
    if !Spread(xs) {
      ConstantSum(xs, xs[0]);
      MeanOf(xs);
      assert |xs| as real * (m - xs[0]) == 0.0;
      NonzeroFactor(|xs| as real, m - xs[0]);
    }
  }

  lemma {:induction false} NonzeroFactor(a: real, b: real)
    requires a > 0.0
    ensures a * b == 0.0 <==> b == 0.0
  {
    if b > 0.0 {
      Product(a, b);
    } else if b < 0.0 {
      Product(a, -b);
      assert a * (-b) == -(a * b);
    }
  }

  lemma {:induction false} ConstantSum(s: seq<real>, c: real)
    requires forall i :: 0 <= i < |s| ==> s[i] == c
    ensures Sum(s) == |s| as real * c
  {
    if s != [] {
      var k := |s| - 1;
      ConstantSum(s[..k], c);
      assert (k + 1) as real * c == k as real * c + c;
    }
  }

  lemma {:induction false} FlatCross(xs: seq<real>, ys: seq<real>, a: real, b: real)
    requires |xs| == |ys| && forall i :: 0 <= i < |xs| ==> xs[i] == a
    ensures Cross(xs, ys, a, b) == 0.0
  {
    if xs != [] {
      FlatCross(xs[..|xs| - 1], ys[..|xs| - 1], a, b);
    }
  }

  /** The residuals of the fitted line are balanced, both plainly and weighted by x. */
  lemma {:induction false} NormalEquations(xs: seq<real>, ys: seq<real>)
    requires xs != [] && |xs| == |ys|
    ensures var f := Ols(xs, ys).value;
            && ResidualSum(xs, ys, f.slope, f.intercept) == 0.0
            && ResidualMoment(xs, ys, f.slope, f.intercept) == 0.0
  {
    hide Cross, Ssr, Mean, ResidualSum, ResidualMoment;
    var mx, my := Mean(xs), Mean(ys);
    var f := Ols(xs, ys).value;
    MeanOf(xs);
    MeanOf(ys);
    ResidualSumOf(xs, ys, f.slope, f.intercept);
    Balanced(|xs| as real, f.slope, mx, my);
    ResidualMomentOf(xs, ys, f.slope, f.intercept, mx, my);
    var sxx, sxy := Cross(xs, xs, mx, mx), Cross(xs, ys, mx, my);
    if sxx == 0.0 {
      NoSpread(xs);
      CrossIsSsr(xs, mx, xs);
      SsrZero(xs, xs, 0.0, mx);
      FlatCross(xs, ys, mx, my);
      assert f.slope * sxx == 0.0 * 0.0;
    } else {
      assert f.slope * sxx == sxy;
    }
    assert mx * ResidualSum(xs, ys, f.slope, f.intercept) == mx * 0.0;
  }

  lemma {:induction false} Balanced(n: real, p: real, mx: real, my: real)
    ensures n * my - p * (n * mx) - n * (my - p * mx) == 0.0
  {
    assert n * (my - p * mx) == n * my - n * (p * mx);
    assert n * (p * mx) == p * (n * mx);
  }

  // ----- Optimality -----

  /** Moving from line (p, q) to line (a, b) costs the squared change, up to the two balances. */
  lemma {:induction false} MoveLine(xs: seq<real>, ys: seq<real>, zeros: seq<real>, p: real, q: real, a: real, b: real)
    requires |xs| == |ys| == |zeros| && forall i :: 0 <= i < |zeros| ==> zeros[i] == 0.0
    ensures Ssr(xs, ys, a, b)
         == Ssr(xs, ys, p, q) + 2.0 * ((p - a) * ResidualMoment(xs, ys, p, q) + (q - b) * ResidualSum(xs, ys, p, q))
          + Ssr(xs, zeros, a - p, b - q)
  {
    hide Residual, Times;
    if xs != [] {
      var k := |xs| - 1;
      MoveLine(xs[..k], ys[..k], zeros[..k], p, q, a, b);
      MovePoint(xs[k], ys[k], p, q, a, b);
      var r := Residual(xs[k], ys[k], p, q);
      Regroup(p - a, q - b, ResidualMoment(xs[..k], ys[..k], p, q), r * xs[k], ResidualSum(xs[..k], ys[..k], p, q), r);
    }
  }

  lemma {:induction false} MovePoint(x: real, y: real, p: real, q: real, a: real, b: real)
    ensures var r, r', u := Residual(x, y, p, q), Residual(x, y, a, b), Residual(x, 0.0, a - p, b - q);
            Times(r', r') == Times(r, r) + 2.0 * ((p - a) * (r * x) + (q - b) * r) + Times(u, u)
  {
    var r, r', u := Residual(x, y, p, q), Residual(x, y, a, b), Residual(x, 0.0, a - p, b - q);
    var d, e := p - a, q - b;
    assert d * x == p * x - a * x;
    assert (a - p) * x == a * x - p * x;
    assert u == d * x + e;
    assert r' == r + u;
    assert (r + u) * (r + u) == r * r + 2.0 * (r * u) + u * u;
    assert r * (d * x + e) == r * (d * x) + r * e;
    assert r * (d * x) == d * (r * x);
  }

  function Zeros(n: nat): seq<real> { seq(n, _ => 0.0) }

  /** No line does better than the fitted one; with two different x values every other line does worse. */
  lemma {:induction false} OlsMinimises(xs: seq<real>, ys: seq<real>, a: real, b: real)
    requires xs != [] && |xs| == |ys|
    ensures var f := Ols(xs, ys).value; Ssr(xs, ys, f.slope, f.intercept) <= Ssr(xs, ys, a, b)
    ensures var f := Ols(xs, ys).value;
            Spread(xs) && Ssr(xs, ys, a, b) <= Ssr(xs, ys, f.slope, f.intercept) ==>
              a == f.slope && b == f.intercept
  {
    hide Ols, Ssr, ResidualSum, ResidualMoment;
    OlsAnswers(xs, ys);
    var f := Ols(xs, ys).value;
    var zeros := Zeros(|xs|);
    NormalEquations(xs, ys);
    MoveLine(xs, ys, zeros, f.slope, f.intercept, a, b);
    assert (f.slope - a) * 0.0 == 0.0 && (f.intercept - b) * 0.0 == 0.0;
    assert Ssr(xs, ys, a, b) == Ssr(xs, ys, f.slope, f.intercept) + Ssr(xs, zeros, a - f.slope, b - f.intercept);
    SsrZero(xs, zeros, a - f.slope, b - f.intercept);
    if Spread(xs) && Ssr(xs, ys, a, b) <= Ssr(xs, ys, f.slope, f.intercept) {
      TwoPoints(xs, zeros, a - f.slope, b - f.intercept);
    }
  }

  lemma {:induction false} OlsAnswers(xs: seq<real>, ys: seq<real>)
    ensures Ols(xs, ys).Some? <==> xs != [] && |xs| == |ys|
  {
  }

  /** A line through zero at two different places is the axis. */
  lemma {:induction false} TwoPoints(xs: seq<real>, zeros: seq<real>, d: real, e: real)
    requires |xs| == |zeros| && Spread(xs) && OnLine(xs, zeros, d, e)
    requires forall i :: 0 <= i < |zeros| ==> zeros[i] == 0.0
    ensures d == 0.0 && e == 0.0
  {
    var i, j :| 0 <= i < |xs| && 0 <= j < |xs| && xs[i] != xs[j];
    assert zeros[i] == 0.0 && zeros[j] == 0.0;
    assert d * xs[i] + e == 0.0 && d * xs[j] + e == 0.0;
    assert d * (xs[i] - xs[j]) == d * xs[i] - d * xs[j] == 0.0;
    var gap := xs[i] - xs[j];
    if gap > 0.0 {
      assert gap * d == 0.0;
      NonzeroFactor(gap, d);
    } else {
      assert (-gap) * d == -(d * gap) == 0.0;
      NonzeroFactor(-gap, d);
    }
  }

  /** Points on a line give back that line, with R-squared 1. */
  lemma {:induction false} ExactRecovery(xs: seq<real>, ys: seq<real>, a: real, b: real)
    requires |xs| == |ys| && Spread(xs) && OnLine(xs, ys, a, b)
    ensures Ols(xs, ys) == Some(Fit(a, b, 1.0))
  {
    hide Ssr, Cross;
    OlsMinimises(xs, ys, a, b);
    SsrZero(xs, ys, a, b);
    var f := Ols(xs, ys).value;
    SsrZero(xs, ys, f.slope, f.intercept);
  }

  /** R-squared lies between 0 and 1; it is 1 exactly when the points lie on the fitted line. */
  lemma {:induction false} RSquaredRange(xs: seq<real>, ys: seq<real>)
    requires xs != [] && |xs| == |ys|
    ensures var f := Ols(xs, ys).value;
            && 0.0 <= f.r2 <= 1.0
            && (f.r2 == 1.0 <==> OnLine(xs, ys, f.slope, f.intercept))
  {
    hide Ssr, Cross, Mean;
    var f := Ols(xs, ys).value;
    var my := Mean(ys);
    CrossIsSsr(ys, my, xs);
    OlsMinimises(xs, ys, 0.0, my);
    SsrZero(xs, ys, f.slope, f.intercept);
    SsrZero(xs, ys, 0.0, my);
    var left, total := Ssr(xs, ys, f.slope, f.intercept), Cross(ys, ys, my, my);
    if total != 0.0 {
      Ratio(left, total);
    }
  }

  /** Sum of squared distances of the fitted values from `m`. */
  function Explained(xs: seq<real>, slope: real, intercept: real, m: real): real {
    if xs == [] then 0.0
    else
      var d := slope * xs[|xs| - 1] + intercept - m;
      Explained(xs[..|xs| - 1], slope, intercept, m) + d * d
  }

  lemma {:induction false} ExplainedIsSsr(xs: seq<real>, zeros: seq<real>, p: real, q: real, m: real)
    requires |xs| == |zeros| && forall i :: 0 <= i < |zeros| ==> zeros[i] == 0.0
    ensures Ssr(xs, zeros, 0.0 - p, m - q) == Explained(xs, p, q, m)
  {
    if xs != [] {
      var k := |xs| - 1;
      ExplainedIsSsr(xs[..k], zeros[..k], p, q, m);
      var d, r := p * xs[k] + q - m, Residual(xs[k], zeros[k], 0.0 - p, m - q);
      assert (0.0 - p) * xs[k] == -(p * xs[k]);
      assert r == d;
      assert Times(r, r) == d * d;
    }
  }

  /** R-squared is the explained share: times the total sum of squares it is the explained sum of squares, and the rest
      is what the line leaves over. */
  lemma {:induction false} RSquaredIsExplainedShare(xs: seq<real>, ys: seq<real>)
    requires xs != [] && |xs| == |ys|
    ensures var f := Ols(xs, ys).value; var total := Cross(ys, ys, Mean(ys), Mean(ys));
            && total == Explained(xs, f.slope, f.intercept, Mean(ys)) + Ssr(xs, ys, f.slope, f.intercept)
            && (total != 0.0 ==> f.r2 * total == Explained(xs, f.slope, f.intercept, Mean(ys)))
  {
    hide Ssr, Cross, Mean, Explained, ResidualSum, ResidualMoment;
    var f := Ols(xs, ys).value;
    var my, zeros := Mean(ys), Zeros(|xs|);
    CrossIsSsr(ys, my, xs);
    NormalEquations(xs, ys);
    MoveLine(xs, ys, zeros, f.slope, f.intercept, 0.0, my);
    assert (f.slope - 0.0) * 0.0 == 0.0 && (f.intercept - my) * 0.0 == 0.0;
    ExplainedIsSsr(xs, zeros, f.slope, f.intercept, my);
    var total, left := Cross(ys, ys, my, my), Ssr(xs, ys, f.slope, f.intercept);
    assert total == left + Ssr(xs, zeros, 0.0 - f.slope, my - f.intercept);
    if total != 0.0 {
      ShareTimesTotal(left, total);
    }
  }

  lemma {:induction false} ShareTimesTotal(left: real, total: real)
    requires total != 0.0
    ensures (1.0 - left / total) * total == total - left
  {
    assert left / total * total == left;
  }

  lemma {:induction false} Ratio(part: real, whole: real)
    requires 0.0 <= part <= whole && whole > 0.0
    ensures 0.0 <= part / whole <= 1.0
    ensures part / whole == 0.0 <==> part == 0.0
  {
    var q := part / whole;
    assert q * whole == part;
  }

  // ----- The two fits agree -----

  /** On paired lists the envelope fit answers exactly when x is spread, with the launch fit's line and R-squared. */
  lemma {:induction false} FitsAgree(xs: seq<real>, ys: seq<real>, size: real)
    requires |xs| == |ys|
    ensures OlsFit(xs, ys).Some? <==> Spread(xs)
    ensures Spread(xs) ==>
              var f, e := Ols(xs, ys).value, OlsFit(xs, ys).value;
              && Ols(xs, ys).Some?
              && e.alpha == f.intercept
              && (e.beta.Finite? <==> f.slope > 0.0)
              && (e.beta.Finite? ==> e.beta.value > 0.0 && size / e.beta.value == f.slope * size)
              && (e.r2.Score? <==> Spread(ys))
              && (e.r2.Score? ==> e.r2.value == f.r2)
  {
    hide Ssr, Cross, Sum;
    if xs != [] {
      NoSpread(xs);
      NoSpread(ys);
      assert xs[..|xs|] == xs && ys[..|xs|] == ys;
      if Spread(xs) {
        var f, e := Ols(xs, ys).value, OlsFit(xs, ys).value;
        if f.slope > 0.0 {
          Reciprocal(f.slope, size);
        }
      }
    }
  }

  lemma {:induction false} Reciprocal(p: real, s: real)
    requires p > 0.0
    ensures 1.0 / p > 0.0 && s / (1.0 / p) == p * s
  {
    var b := 1.0 / p;
    assert b * p == 1.0;
    assert b > 0.0 by {
      NonzeroFactor(p, b);
      if b < 0.0 {
        Product(p, -b);
      }
    }
    assert (p * s) * b == s * (b * p);
  }
}
