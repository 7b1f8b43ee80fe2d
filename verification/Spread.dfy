/**
 The figures by which a full leaf of the index is split: mean, spread and range of its coordinates in
 one dimension.  The deviation of the program is the square root of the spread; scores are compared
 squared here, and a dimension of zero range has no score (the program divides zero by zero there,
 and its comparison fails).
 */
module Spread {

  type Point = seq<real>

  function Sum(vs: seq<real>, n: nat): real
    requires n <= |vs|
  {
    if n == 0 then 0.0 else Sum(vs, n - 1) + vs[n - 1]
  }

  function Mean(vs: seq<real>): real
    requires vs != []
  {
    Sum(vs, |vs|) / |vs| as real
  }

  /** The least and the greatest of the first `n` values. */
  function Low(vs: seq<real>, n: nat): real
    requires 0 < n <= |vs|
  {
    if n == 1 then vs[0] else if vs[n - 1] < Low(vs, n - 1) then vs[n - 1] else Low(vs, n - 1)
  }

  function High(vs: seq<real>, n: nat): real
    requires 0 < n <= |vs|
  {
    if n == 1 then vs[0] else if vs[n - 1] > High(vs, n - 1) then vs[n - 1] else High(vs, n - 1)
  }

  lemma {:induction false} Extremes(vs: seq<real>, n: nat)
    requires 0 < n <= |vs|
    ensures forall i :: 0 <= i < n ==> Low(vs, n) <= vs[i] <= High(vs, n)
    ensures exists i :: 0 <= i < n && Low(vs, n) == vs[i]
    ensures exists i :: 0 <= i < n && High(vs, n) == vs[i]
    ensures Low(vs, n) <= High(vs, n)
  {
    if n == 1 {
      assert Low(vs, 1) == vs[0] == High(vs, 1);
    } else {
      Extremes(vs, n - 1);
      var l: nat :| l < n - 1 && Low(vs, n - 1) == vs[l];
      var h: nat :| h < n - 1 && High(vs, n - 1) == vs[h];
      assert Low(vs, n) == vs[l] || Low(vs, n) == vs[n - 1];
      assert High(vs, n) == vs[h] || High(vs, n) == vs[n - 1];
    }
  }

  function Times(a: real, b: real): real {
    a * b
  }

  lemma ProductPositive(a: real, b: real)
    requires a > 0.0 && b > 0.0
    ensures Times(a, b) > 0.0
  {
    var c := a * b;
    assert c / b == a;
  }

  function Square(x: real): real {
    Times(x, x)
  }

  lemma SquareSign(x: real)
    ensures x == 0.0 ==> Square(x) == 0.0
    ensures x != 0.0 ==> Square(x) > 0.0
  {
    if x > 0.0 {
      ProductPositive(x, x);
    } else if x < 0.0 {
      ProductPositive(0.0 - x, 0.0 - x);
      assert Times(0.0 - x, 0.0 - x) == Times(x, x);
    }
  }

  /** The sum of the squared distances of the first `n` values from `m`. */
  function Deviations(vs: seq<real>, m: real, n: nat): (r: real)
    requires n <= |vs|
    ensures r >= 0.0
  {
    if n == 0 then 0.0 else
      SquareSign(vs[n - 1] - m);
      Deviations(vs, m, n - 1) + Square(vs[n - 1] - m)
  }

  lemma {:induction false} DeviationAtLeast(vs: seq<real>, m: real, n: nat, i: nat)
    requires i < n <= |vs|
    ensures Deviations(vs, m, n) >= Square(vs[i] - m)
  {
    hide Square;
    SquareSign(vs[n - 1] - m);
    if i < n - 1 {
      DeviationAtLeast(vs, m, n - 1, i);
    }
  }

  function Range(vs: seq<real>): (r: real)
    requires vs != []
    ensures r >= 0.0
  {
    Extremes(vs, |vs|);
    High(vs, |vs|) - Low(vs, |vs|)
  }

  /** The square of deviation over range. */
  function Score(vs: seq<real>): (r: real)
    requires vs != []
    ensures r >= 0.0
  {
    if Range(vs) == 0.0 then 0.0 else
      SquareSign(Range(vs));
      Ratio(Deviations(vs, Mean(vs), |vs|), Square(Range(vs)))
  }

  function Ratio(a: real, b: real): (r: real)
    requires a >= 0.0 && b > 0.0
    ensures r >= 0.0 && (a > 0.0 ==> r > 0.0)
  {
    a / b
  }

  lemma {:induction false} SumBounds(vs: seq<real>, n: nat, lo: real, hi: real)
    requires n <= |vs| && forall i :: 0 <= i < n ==> lo <= vs[i] <= hi
    ensures lo * n as real <= Sum(vs, n) <= hi * n as real
    ensures (exists i :: 0 <= i < n && vs[i] > lo) ==> Sum(vs, n) > lo * n as real
  {
    if n > 0 {
      SumBounds(vs, n - 1, lo, hi);
      assert lo * n as real == lo * (n - 1) as real + lo;
      assert hi * n as real == hi * (n - 1) as real + hi;
    }
  }

  lemma Divides(a: real, b: real, n: real)
    requires n > 0.0
    ensures a * n <= b <==> a <= b / n
    ensures a * n < b <==> a < b / n
    ensures b <= a * n <==> b / n <= a
  {
    var c := b / n;
    assert c * n == b;
  }

  /** What the sums are: nothing for equal values, and changed by a changed value as far as it changes. */
  lemma {:induction false} SumReplaced(vs: seq<real>, n: nat, i: nat, x: real)
    requires i < n <= |vs|
    ensures Sum(vs[i := x], n) - Sum(vs, n) == x - vs[i]
  {
    if i == n - 1 {
      SumsBefore(vs, vs[i := x], 0.0, i);
    } else {
      SumReplaced(vs, n - 1, i, x);
    }
  }

  lemma {:induction false} DeviationsReplaced(vs: seq<real>, m: real, n: nat, i: nat, x: real)
    requires i < n <= |vs|
    ensures Deviations(vs[i := x], m, n) - Deviations(vs, m, n) == (x - m) * (x - m) - (vs[i] - m) * (vs[i] - m)
  {
    if i == n - 1 {
      SumsBefore(vs, vs[i := x], m, i);
    } else {
      DeviationsReplaced(vs, m, n - 1, i, x);
    }
  }

  lemma {:induction false} SumsBefore(vs: seq<real>, ws: seq<real>, m: real, n: nat)
    requires n <= |vs| && n <= |ws| && vs[..n] == ws[..n]
    ensures Sum(vs, n) == Sum(ws, n) && Deviations(vs, m, n) == Deviations(ws, m, n)
  {
    hide Square;
    if n > 0 {
      assert vs[n - 1] == vs[..n][n - 1] == ws[..n][n - 1] == ws[n - 1];
      assert vs[..n - 1] == vs[..n][..n - 1] == ws[..n][..n - 1] == ws[..n - 1];
      SumsBefore(vs, ws, m, n - 1);
    }
  }

  lemma {:induction false} SumsOfEqual(vs: seq<real>, m: real, n: nat)
    requires n <= |vs| && forall i :: 0 <= i < n ==> vs[i] == m
    ensures Sum(vs, n) == n as real * m && Deviations(vs, m, n) == 0.0
  {
    hide Square;
    if n > 0 {
      SumsOfEqual(vs, m, n - 1);
      SquareSign(vs[n - 1] - m);
      assert n as real * m == (n - 1) as real * m + m;
    }
  }

  /** The score of values that differ, in plain arithmetic. */
  lemma ScoreMeans(vs: seq<real>)
    requires vs != [] && High(vs, |vs|) != Low(vs, |vs|)
    ensures Mean(vs) * |vs| as real == Sum(vs, |vs|)
    ensures Score(vs) * ((High(vs, |vs|) - Low(vs, |vs|)) * (High(vs, |vs|) - Low(vs, |vs|))) ==
            Deviations(vs, Mean(vs), |vs|)
  {
    hide Sum, High, Low, Deviations;
    var r := Range(vs);
    SquareSign(r);
    RatioTimes(Deviations(vs, Mean(vs), |vs|), Square(r));
    Quotient(Sum(vs, |vs|), |vs| as real);
  }

  lemma RatioTimes(a: real, b: real)
    requires a >= 0.0 && b > 0.0
    ensures Ratio(a, b) * b == a
  {
  }

  lemma Quotient(a: real, b: real)
    requires b > 0.0
    ensures a / b * b == a
  {
  }

  /** Values that are not all the same lie on both sides of their mean. */
  lemma MeanSeparates(vs: seq<real>)
    requires vs != [] && Range(vs) > 0.0
    ensures exists i :: 0 <= i < |vs| && vs[i] >= Mean(vs)
    ensures exists i :: 0 <= i < |vs| && vs[i] < Mean(vs)
  {
    var n := |vs|;
    var lo, hi := Low(vs, n), High(vs, n);
    Extremes(vs, n);
    var h: nat :| h < n && hi == vs[h];
    var l: nat :| l < n && lo == vs[l];
    SumBounds(vs, n, lo, hi);
    Divides(lo, Sum(vs, n), n as real);
    Divides(hi, Sum(vs, n), n as real);
    assert vs[h] >= Mean(vs) && vs[l] < Mean(vs);
  }

  /** They have a positive score. */
  lemma DistinctScore(vs: seq<real>, i: nat, j: nat)
    requires i < |vs| && j < |vs| && vs[i] != vs[j]
    ensures Range(vs) > 0.0 && Score(vs) > 0.0
  {
    var m := Mean(vs);
    SquareSign(vs[i] - m);
    SquareSign(vs[j] - m);
    DeviationAtLeast(vs, m, |vs|, i);
    DeviationAtLeast(vs, m, |vs|, j);
    Extremes(vs, |vs|);
  }

  /** The coordinates of some points in one dimension. */
  function Coordinates(points: seq<Point>, idx: seq<nat>, d: nat): (vs: seq<real>)
    requires forall k :: 0 <= k < |idx| ==> idx[k] < |points| && d < |points[idx[k]]|
    ensures |vs| == |idx| && forall k :: 0 <= k < |idx| ==> vs[k] == points[idx[k]][d]
  {
    seq(|idx|, k requires 0 <= k < |idx| => points[idx[k]][d])
  }

  /** The squared distance of two points, over the first `n` dimensions. */
  function Distance(p: Point, q: Point, n: nat): (r: real)
    requires n <= |p| && n <= |q|
    ensures r >= 0.0
  {
    if n == 0 then 0.0 else
      SquareSign(p[n - 1] - q[n - 1]);
      Distance(p, q, n - 1) + Square(p[n - 1] - q[n - 1])
  }

  /**
   What the distance is: nothing from a point to itself, and changing one coordinate changes it by just what
   the difference in that coordinate contributes.
   */
  lemma {:induction false} DistanceSelf(p: Point, n: nat)
    requires n <= |p|
    ensures Distance(p, p, n) == 0.0
  {
    hide Square;
    if n > 0 {
      SquareSign(p[n - 1] - p[n - 1]);
      DistanceSelf(p, n - 1);
    }
  }

  lemma {:induction false} DistanceReplaced(p: Point, q: Point, n: nat, d: nat, x: real)
    requires d < n <= |p| && n <= |q|
    ensures Distance(p, q[d := x], n) - Distance(p, q, n) == (p[d] - x) * (p[d] - x) - (p[d] - q[d]) * (p[d] - q[d])
  {
    if d == n - 1 {
      DistanceBefore(p, q, q[d := x], d);
    } else {
      DistanceReplaced(p, q, n - 1, d, x);
    }
  }

  lemma {:induction false} DistanceBefore(p: Point, q: Point, r: Point, n: nat)
    requires n <= |p| && n <= |q| && n <= |r| && q[..n] == r[..n]
    ensures Distance(p, q, n) == Distance(p, r, n)
  {
    hide Square;
    if n > 0 {
      assert q[n - 1] == q[..n][n - 1] == r[..n][n - 1] == r[n - 1];
      assert q[..n - 1] == q[..n][..n - 1] == r[..n][..n - 1] == r[..n - 1];
      DistanceBefore(p, q, r, n - 1);
    }
  }

  lemma {:induction false} DistanceAtLeast(p: Point, q: Point, n: nat, d: nat)
    requires d < n <= |p| && n <= |q|
    ensures Distance(p, q, n) >= Square(p[d] - q[d])
  {
    hide Square;
    SquareSign(p[n - 1] - q[n - 1]);
    if d < n - 1 {
      DistanceAtLeast(p, q, n - 1, d);
    }
  }

  lemma SquareGrows(a: real, b: real)
    requires 0.0 <= a < b
    ensures Square(a) < Square(b)
  {
    ProductPositive(b - a, b + a);
    assert Times(b - a, b + a) == Times(b, b) - Times(a, a);
  }

  lemma SameSquare(x: real)
    ensures Square(0.0 - x) == Square(x)
  {
  }

  /** A point beyond a split position, seen from the other side of it, is farther away than the position. */
  lemma BeyondSplit(p: Point, q: Point, dims: nat, d: nat, pos: real)
    requires d < dims == |p| == |q|
    requires p[d] >= pos > q[d] || q[d] >= pos > p[d]
    ensures Distance(p, q, dims) >= Square(p[d] - pos)
  {
    var a := if p[d] >= pos then p[d] - pos else 0.0 - (p[d] - pos);
    var b := if p[d] >= pos then p[d] - q[d] else 0.0 - (p[d] - q[d]);
    SameSquare(p[d] - pos);
    SameSquare(p[d] - q[d]);
    DistanceAtLeast(p, q, dims, d);
    if a < b {
      SquareGrows(a, b);
    }
  }
}
