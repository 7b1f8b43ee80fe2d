/**
 The index of points of bsptree.c: a tree of splits with leaves of at most 64 points, no two points
 alike.  Coordinates are reals, and distances are compared squared.
 */
module Bsp {
  import opened Spread
  import opened Wrappers

  const MAX_DEPTH := 64
  const MAX_NODE_POINTS := 64

  /** The largest finite value of a C float. */
  const FLT_MAX: real := 340282346638528859811704183484516925440.0

  class BspNode {
    var idxarray: Option<seq<nat>>     // None once the node has been split
    var splitdim: int
    var splitpos: real
    var ge: BspNode?
    var lt: BspNode?

    constructor ()
      ensures idxarray == Some([]) && ge == null && lt == null
    {
      idxarray, splitdim, splitpos := Some([]), -1, 0.0;
      ge, lt := null, null;
    }
  }

  /* The trees that linked nodes stand for. */

  datatype Shape =
    | Leaf(node: BspNode, idx: seq<nat>)
    | Split(node: BspNode, dim: nat, pos: real, ge: Shape, lt: Shape)

  ghost function Foot(s: Shape): set<BspNode> {
    match s
    case Leaf(node, _) => {node}
    case Split(node, _, _, ge, lt) => {node} + Foot(ge) + Foot(lt)
  }

  ghost predicate Rep(s: Shape)
    reads Foot(s)
  {
    match s
    case Leaf(node, idx) => node.idxarray == Some(idx) && node.ge == null && node.lt == null
    case Split(node, dim, pos, ge, lt) =>
      && node.idxarray == None && node.splitdim == dim && node.splitpos == pos
      && node.ge == ge.node && node.lt == lt.node
      && node !in Foot(ge) && node !in Foot(lt) && Foot(ge) !! Foot(lt)
      && Rep(ge) && Rep(lt)
  }

  ghost function Elements(idx: seq<nat>): set<nat> {
    set i | i in idx
  }

  /** The indices of the points in the tree. */
  ghost function Live(s: Shape): set<nat> {
    match s
    case Leaf(_, idx) => Elements(idx)
    case Split(_, _, _, ge, lt) => Live(ge) + Live(lt)
  }

  ghost predicate AllPoints(points: seq<Point>, dims: nat) {
    forall i :: 0 <= i < |points| ==> |points[i]| == dims
  }

  /** The side of a split a point is on. */
  predicate OnSide(p: Point, dim: nat, pos: real, upper: bool)
    requires dim < |p|
  {
    if upper then p[dim] >= pos else p[dim] < pos
  }

  ghost predicate AllOnSide(live: set<nat>, points: seq<Point>, dim: nat, pos: real, upper: bool) {
    forall i :: i in live ==> i < |points| && dim < |points[i]| && OnSide(points[i], dim, pos, upper)
  }

  ghost predicate LeafSound(idx: seq<nat>, points: seq<Point>) {
    && |idx| <= MAX_NODE_POINTS
    && (forall k :: 0 <= k < |idx| ==> idx[k] < |points|)
    && (forall k, l :: 0 <= k < l < |idx| ==> points[idx[k]] != points[idx[l]])
  }

  /** Every leaf holds at most 64 points, all different; every split separates the points below it. */
  ghost predicate Sound(s: Shape, points: seq<Point>, dims: nat) {
    match s
    case Leaf(_, idx) => LeafSound(idx, points)
    case Split(_, dim, pos, ge, lt) =>
      && dim < dims && Sound(ge, points, dims) && Sound(lt, points, dims)
      && AllOnSide(Live(ge), points, dim, pos, true) && AllOnSide(Live(lt), points, dim, pos, false)
  }

  /** The subtree a point belongs to. */
  ghost function Side(s: Shape, p: Point): Shape
    requires s.Split? && s.dim < |p|
  {
    if p[s.dim] >= s.pos then s.ge else s.lt
  }

  /** The leaf a point belongs to. */
  ghost function Route(s: Shape, p: Point, dims: nat, points: seq<Point>): seq<nat>
    requires Sound(s, points, dims) && |p| == dims
  {
    match s
    case Leaf(_, idx) => idx
    case Split(_, _, _, _, _) => Route(Side(s, p), p, dims, points)
  }

  ghost predicate Stored(live: set<nat>, points: seq<Point>, p: Point) {
    exists i :: i in live && i < |points| && points[i] == p
  }

  lemma {:induction false} LiveInRange(s: Shape, points: seq<Point>, dims: nat)
    requires Sound(s, points, dims)
    ensures forall i :: i in Live(s) ==> i < |points|
  {
    if s.Split? {
      LiveInRange(s.ge, points, dims);
      LiveInRange(s.lt, points, dims);
    }
  }

  /** A stored point is in the leaf it belongs to. */
  lemma {:induction false} RouteFinds(s: Shape, points: seq<Point>, dims: nat, i: nat)
    requires Sound(s, points, dims) && AllPoints(points, dims) && i in Live(s) && i < |points|
    ensures i in Route(s, points[i], dims, points)
  {
    if s.Split? {
      RouteFinds(Side(s, points[i]), points, dims, i);
    }
  }

  /** No two indices in the tree are of the same point. */
  lemma {:induction false} LiveDistinct(s: Shape, points: seq<Point>, dims: nat, i: nat, j: nat)
    requires Sound(s, points, dims) && i in Live(s) && j in Live(s)
    requires i < |points| && j < |points| && points[i] == points[j]
    ensures i == j
  {
    match s
    case Leaf(_, idx) =>
      var k: nat :| k < |idx| && idx[k] == i;
      var l: nat :| l < |idx| && idx[l] == j;
    case Split(_, _, _, ge, lt) =>
      if i in Live(ge) && j in Live(ge) {
        LiveDistinct(ge, points, dims, i, j);
      } else if i in Live(lt) && j in Live(lt) {
        LiveDistinct(lt, points, dims, i, j);
      }
  }

  /** More points do not disturb the tree. */
  lemma {:induction false} SoundMore(s: Shape, points: seq<Point>, more: seq<Point>, dims: nat)
    requires Sound(s, points, dims) && points <= more
    ensures Sound(s, more, dims)
  {
    LiveInRange(s, points, dims);
    if s.Split? {
      SoundMore(s.ge, points, more, dims);
      SoundMore(s.lt, points, more, dims);
    }
  }

  /* Splitting a full leaf. */

  /** The indices among the first `n` whose points are on one side of the split. */
  function Part(idx: seq<nat>, points: seq<Point>, dim: nat, pos: real, upper: bool, n: nat): seq<nat>
    requires n <= |idx| && forall k :: 0 <= k < |idx| ==> idx[k] < |points| && dim < |points[idx[k]]|
  {
    if n == 0 then []
    else Part(idx, points, dim, pos, upper, n - 1) +
         if OnSide(points[idx[n - 1]], dim, pos, upper) then [idx[n - 1]] else []
  }

  lemma {:induction false} PartMembers(idx: seq<nat>, points: seq<Point>, dim: nat, pos: real, upper: bool, n: nat)
    requires n <= |idx| && forall k :: 0 <= k < |idx| ==> idx[k] < |points| && dim < |points[idx[k]]|
    ensures var part := Part(idx, points, dim, pos, upper, n);
      forall i :: i in part <==> i in idx[..n] && OnSide(points[i], dim, pos, upper)
  {
    if n > 0 {
      PartMembers(idx, points, dim, pos, upper, n - 1);
      assert idx[..n] == idx[..n - 1] + [idx[n - 1]];
    }
  }

  lemma {:induction false} PartLengths(idx: seq<nat>, points: seq<Point>, dim: nat, pos: real, n: nat)
    requires n <= |idx| && forall k :: 0 <= k < |idx| ==> idx[k] < |points| && dim < |points[idx[k]]|
    ensures |Part(idx, points, dim, pos, true, n)| + |Part(idx, points, dim, pos, false, n)| == n
  {
    if n > 0 {
      PartLengths(idx, points, dim, pos, n - 1);
    }
  }

  lemma {:induction false} PartSound(idx: seq<nat>, points: seq<Point>, dim: nat, pos: real, upper: bool, n: nat)
    requires n <= |idx| && (forall k :: 0 <= k < |idx| ==> idx[k] < |points| && dim < |points[idx[k]]|) &&
             LeafSound(idx, points)
    ensures LeafSound(Part(idx, points, dim, pos, upper, n), points)
    ensures |Part(idx, points, dim, pos, upper, n)| <= n
  {
    hide OnSide, LeafSound, Part;
    PartNext(idx, points, dim, pos, upper, n);
    if n == 0 {
      NoneSound(points);
    } else {
      PartSound(idx, points, dim, pos, upper, n - 1);
      PartMembers(idx, points, dim, pos, upper, n - 1);
      GrowLeaf(Part(idx, points, dim, pos, upper, n - 1), idx, n - 1, points);
    }
  }

  lemma PartNext(idx: seq<nat>, points: seq<Point>, dim: nat, pos: real, upper: bool, n: nat)
    requires n <= |idx| && forall k :: 0 <= k < |idx| ==> idx[k] < |points| && dim < |points[idx[k]]|
    ensures Part(idx, points, dim, pos, upper, n) ==
            if n == 0 then []
            else Part(idx, points, dim, pos, upper, n - 1) +
                 if OnSide(points[idx[n - 1]], dim, pos, upper) then [idx[n - 1]] else []
  {
    hide OnSide;
  }

  lemma NoneSound(points: seq<Point>)
    ensures LeafSound([], points)
  {
  }

  lemma GrowLeaf(part: seq<nat>, idx: seq<nat>, n: nat, points: seq<Point>)
    requires LeafSound(idx, points) && LeafSound(part, points) && |part| <= n < |idx|
    requires forall i :: i in part ==> i in idx[..n]
    ensures LeafSound(part + [idx[n]], points) && LeafSound(part + [], points)
  {
    forall k | 0 <= k < |part|
      ensures points[part[k]] != points[idx[n]]
    {
      assert part[k] in idx[..n];
      var l: nat :| l < n && idx[..n][l] == part[k];
      assert idx[l] == part[k];
    }
    assert part + [] == part;
  }

  /** Of two different points, some dimension tells them apart. */
  lemma Apart(p: Point, q: Point)
    requires |p| == |q| && p != q
    ensures exists d :: 0 <= d < |p| && p[d] != q[d]
  {
  }

  /** What `FindSplit` promises: the mean of a dimension with the greatest score, the first such. */
  ghost predicate BestSplit(idx: seq<nat>, points: seq<Point>, dims: nat, dim: nat, pos: real)
    requires idx != [] && AllPoints(points, dims) && forall k :: 0 <= k < |idx| ==> idx[k] < |points|
  {
    && dim < dims && pos == Mean(Coordinates(points, idx, dim))
    && forall d :: 0 <= d < dims ==>
      var score := Score(Coordinates(points, idx, d));
      && score <= Score(Coordinates(points, idx, dim))
      && (d < dim ==> score < Score(Coordinates(points, idx, dim)))
  }

  /** The best dimension of different points is one in which they differ. */
  lemma BestHasRange(idx: seq<nat>, points: seq<Point>, dims: nat, dim: nat, pos: real)
    requires |idx| >= 2 && AllPoints(points, dims) && LeafSound(idx, points) && BestSplit(idx, points, dims, dim, pos)
    ensures dim < dims && Range(Coordinates(points, idx, dim)) > 0.0
  {
    hide Range, Deviations, Mean, Ratio;
    assert points[idx[0]] != points[idx[1]];
    Apart(points[idx[0]], points[idx[1]]);
    var d: nat :| d < dims && points[idx[0]][d] != points[idx[1]][d];
    DistinctScore(Coordinates(points, idx, d), 0, 1);
    assert Score(Coordinates(points, idx, d)) <= Score(Coordinates(points, idx, dim));
  }

  lemma SomeOnSide(idx: seq<nat>, points: seq<Point>, dim: nat, pos: real, upper: bool, k: nat)
    requires forall k :: 0 <= k < |idx| ==> idx[k] < |points| && dim < |points[idx[k]]|
    requires k < |idx| && OnSide(points[idx[k]], dim, pos, upper)
    ensures Part(idx, points, dim, pos, upper, |idx|) != []
  {
    PartMembers(idx, points, dim, pos, upper, |idx|);
    assert idx[k] in idx[..|idx|];
    assert idx[k] in Part(idx, points, dim, pos, upper, |idx|);
  }

  /** A leaf of at least two points is split into two leaves neither of which is empty. */
  lemma SplitSeparates(idx: seq<nat>, points: seq<Point>, dims: nat, dim: nat, pos: real)
    requires |idx| >= 2 && AllPoints(points, dims) && LeafSound(idx, points) && BestSplit(idx, points, dims, dim, pos)
    ensures dim < dims && Part(idx, points, dim, pos, true, |idx|) != [] &&
            Part(idx, points, dim, pos, false, |idx|) != []
  {
    hide Score, Mean, Range, Part;
    BestHasRange(idx, points, dims, dim, pos);
    var vs := Coordinates(points, idx, dim);
    MeanSeparates(vs);
    var h: nat :| h < |vs| && vs[h] >= pos;
    var l: nat :| l < |vs| && vs[l] < pos;
    SomeOnSide(idx, points, dim, pos, true, h);
    SomeOnSide(idx, points, dim, pos, false, l);
  }

  /* Adding. */

  /** Whether an addition has to split a leaf. */
  ghost predicate MustSplit(s: Shape, p: Point, dims: nat, points: seq<Point>)
    requires Sound(s, points, dims) && |p| == dims
  {
    match s
    case Leaf(_, idx) => |idx| == MAX_NODE_POINTS && !Stored(Live(s), points, p)
    case Split(_, _, _, _, _) => MustSplit(Side(s, p), p, dims, points)
  }

  /** It does if the leaf that the point belongs to is full and does not have it. */
  lemma {:induction false} SplitsFullLeaf(s: Shape, p: Point, dims: nat, points: seq<Point>)
    requires Sound(s, points, dims) && AllPoints(points, dims) && |p| == dims
    ensures MustSplit(s, p, dims, points) <==>
            |Route(s, p, dims, points)| == MAX_NODE_POINTS &&
            forall k :: 0 <= k < |Route(s, p, dims, points)| ==>
              Route(s, p, dims, points)[k] < |points| && points[Route(s, p, dims, points)[k]] != p
  {
    match s
    case Leaf(_, idx) =>
      forall k | 0 <= k < |idx|
        ensures idx[k] in Live(s) && idx[k] < |points|
      {
        LiveInRange(s, points, dims);
        assert idx[k] in Elements(idx);
      }
    case Split(_, _, _, _, _) =>
      SplitsFullLeaf(Side(s, p), p, dims, points);
  }

  /** How many calls deep an addition goes: the depth of the leaf, and one more if it must be split. */
  ghost function Needed(s: Shape, p: Point, dims: nat, points: seq<Point>): nat
    requires Sound(s, points, dims) && |p| == dims
  {
    match s
    case Leaf(_, idx) => if MustSplit(s, p, dims, points) then 2 else 1
    case Split(_, _, _, _, _) => 1 + Needed(Side(s, p), p, dims, points)
  }

  ghost function Splits(s: Shape): nat {
    match s
    case Leaf(_, _) => 0
    case Split(_, _, _, ge, lt) => 1 + Splits(ge) + Splits(lt)
  }

  /** No leaf below a split is empty. */
  ghost predicate NoneEmpty(s: Shape) {
    match s
    case Leaf(_, idx) => idx != []
    case Split(_, _, _, ge, lt) => NoneEmpty(ge) && NoneEmpty(lt)
  }

  /** What an addition answers and does: a stored point keeps its index, any other gets the next one. */
  ghost predicate Added(s: Shape, s': Shape, points: seq<Point>, points': seq<Point>, p: Point, i: nat) {
    if Stored(Live(s), points, p) then
      s' == s && points' == points && i in Live(s) && i < |points| && points[i] == p
    else
      i == |points| && points' == points + [p] && Live(s') == Live(s) + {i}
  }

  /** Whether a point is stored is decided on its side of a split. */
  lemma StoredOnSide(s: Shape, points: seq<Point>, dims: nat, p: Point)
    requires s.Split? && Sound(s, points, dims) && |p| == dims
    ensures Stored(Live(s), points, p) <==> Stored(Live(Side(s, p)), points, p)
  {
    if Stored(Live(s), points, p) {
      var i :| i in Live(s) && i < |points| && points[i] == p;
      assert i in Live(Side(s, p));
    }
  }

  /** A tree with one side replaced by what an addition made of it. */
  ghost function WithSide(s: Shape, p: Point, below: Shape): Shape
    requires s.Split? && s.dim < |p|
  {
    if p[s.dim] >= s.pos then s.(ge := below) else s.(lt := below)
  }

  /** An addition on one side is an addition. */
  lemma AddedBelow(s: Shape, below: Shape, points: seq<Point>, points': seq<Point>, dims: nat, p: Point, i: nat)
    requires s.Split? && Sound(s, points, dims) && |p| == dims
    requires Added(Side(s, p), below, points, points', p, i) && Sound(below, points', dims)
    ensures Added(s, WithSide(s, p, below), points, points', p, i) && Sound(WithSide(s, p, below), points', dims)
  {
    StoredOnSide(s, points, dims, p);
    LiveInRange(s, points, dims);
    if !Stored(Live(s), points, p) {
      SoundMore(s.ge, points, points', dims);
      SoundMore(s.lt, points, points', dims);
    }
  }

  lemma AddedMeansSplits(s: Shape, p: Point, dims: nat, points: seq<Point>)
    requires s.Split? && Sound(s, points, dims) && |p| == dims
    ensures s.dim < dims && Sound(s.ge, points, dims) && Sound(s.lt, points, dims)
    ensures Needed(s, p, dims, points) == 1 + Needed(Side(s, p), p, dims, points)
    ensures MustSplit(s, p, dims, points) <==> MustSplit(Side(s, p), p, dims, points)
  {
  }

  /** A leaf with room takes the next index. */
  lemma AddedToLeaf(s: Shape, points: seq<Point>, dims: nat, p: Point)
    requires s.Leaf? && Sound(s, points, dims) && |s.idx| < MAX_NODE_POINTS
    requires forall k :: 0 <= k < |s.idx| ==> points[s.idx[k]] != p
    ensures !Stored(Live(s), points, p)
    ensures var s' := s.(idx := s.idx + [|points|]);
      Sound(s', points + [p], dims) && Added(s, s', points, points + [p], p, |points|)
  {
  }

  lemma BestInRange(idx: seq<nat>, points: seq<Point>, dims: nat, dim: nat, pos: real)
    requires idx != [] && AllPoints(points, dims) && LeafSound(idx, points) && BestSplit(idx, points, dims, dim, pos)
    ensures dim < dims && forall k :: 0 <= k < |idx| ==> idx[k] < |points| && dim < |points[idx[k]]|
  {
  }

  /** How far a search reaches: a radius that the caller gives, or one that was computed as a square root. */
  datatype Reach = Radius(radius: real) | Root(square: real) {
    predicate Proper() {
      Radius? ==> radius >= 0.0
    }

    function Squared(): real {
      if Radius? then Square(radius) else square
    }

    predicate Covers(diff: real) {
      if Radius? then (if diff < 0.0 then 0.0 - diff else diff) <= radius else Square(diff) <= square
    }
  }

  /** Comparing with the radius is comparing squares. */
  lemma RadiusSquared(diff: real, radius: real)
    requires radius >= 0.0
    ensures (if diff < 0.0 then 0.0 - diff else diff) <= radius <==> Square(diff) <= Square(radius)
  {
    hide Square;
    var a := if diff < 0.0 then 0.0 - diff else diff;
    SameSquare(diff);
    if a < radius {
      SquareGrows(a, radius);
    } else if radius < a {
      SquareGrows(radius, a);
    }
  }

  lemma CoversSquared(diff: real, reach: Reach)
    requires reach.Proper()
    ensures reach.Covers(diff) <==> Square(diff) <= reach.Squared()
  {
    hide Square;
    if reach.Radius? {
      RadiusSquared(diff, reach.radius);
    }
  }

  class BspTree {
    const dimensions: nat
    var points: seq<Point>             // every point ever added, by index
    var top: BspNode
    ghost var shape: Shape
    ghost var Repr: set<BspNode>

    ghost predicate Valid()
      reads this, Repr
    {
      && 0 < dimensions && AllPoints(points, dimensions) && Foot(shape) == Repr
      && Rep(shape) && shape.node == top && Sound(shape, points, dimensions)
    }

    /** The indices of the points in the tree. */
    ghost function Index(): set<nat>
      reads this
    {
      Live(shape)
    }

    constructor (dimensions: nat)
      requires 0 < dimensions < 128
      ensures Valid() && fresh(Repr) && this.dimensions == dimensions && points == []
      ensures Index() == {} && shape.Leaf?
    {
      this.dimensions := dimensions;
      points := [];
      var node := new BspNode();
      top := node;
      shape, Repr := Leaf(node, []), {node};
    }

    /** _bsp_find_split: mean, spread and range of each dimension, and the dimension with the greatest score. */
    method Statistics(idx: seq<nat>, d: nat) returns (mean: real, variance: real, least: real, greatest: real)
      requires idx != [] && AllPoints(points, dimensions) &&
               (forall k :: 0 <= k < |idx| ==> idx[k] < |points|) && d < dimensions
      ensures var vs := Coordinates(points, idx, d);
        && mean == Mean(vs) && variance == Deviations(vs, mean, |vs|)
        && least == Low(vs, |vs|) && greatest == High(vs, |vs|)
    {
      hide Square, Times;
      ghost var vs := Coordinates(points, idx, d);
      mean := points[idx[0]][d];
      least, greatest := mean, mean;
      var i := 1;
      while i < |idx|
        invariant 1 <= i <= |idx|
        invariant mean == Sum(vs, i) && least == Low(vs, i) && greatest == High(vs, i)
      {
        Extremes(vs, i);
        var pos := points[idx[i]][d];
        mean := mean + pos;
        if pos < least {
          least := pos;
        } else if pos > greatest {
          greatest := pos;
        }
        i := i + 1;
      }
      mean := mean / |idx| as real;
      variance := Variance(idx, d, mean);
    }

    method Variance(idx: seq<nat>, d: nat, mean: real) returns (variance: real)
      requires AllPoints(points, dimensions) && (forall k :: 0 <= k < |idx| ==> idx[k] < |points|) && d < dimensions
      ensures variance == Deviations(Coordinates(points, idx, d), mean, |idx|)
    {
      hide Square, Times;
      ghost var vs := Coordinates(points, idx, d);
      var i := 0;
      variance := 0.0;
      while i < |idx|
        invariant i <= |idx| && variance == Deviations(vs, mean, i)
      {
        var diff := points[idx[i]][d] - mean;
        variance := variance + Square(diff);
        i := i + 1;
      }
    }

    method FindSplit(idx: seq<nat>) returns (dim: nat, pos: real)
      requires idx != [] && AllPoints(points, dimensions) &&
               (forall k :: 0 <= k < |idx| ==> idx[k] < |points|) && dimensions > 0
      ensures BestSplit(idx, points, dimensions, dim, pos)
    {
      hide Mean, Deviations, Low, High;
      var means: seq<real>, scores: seq<real>, d := [], [], 0;
      while d < dimensions
        invariant d <= dimensions && |means| == |scores| == d
        invariant forall e :: 0 <= e < d ==>
          means[e] == Mean(Coordinates(points, idx, e)) && scores[e] == Score(Coordinates(points, idx, e))
      {
        var mean, variance, least, greatest := Statistics(idx, d);
        var range := greatest - least;
        SquareSign(range);
        var score := if range == 0.0 then 0.0 else variance / Square(range);
        means, scores, d := means + [mean], scores + [score], d + 1;
      }
      dim, d := 0, 0;
      var best := 0.0;
      while d < dimensions
        invariant dim <= d <= dimensions && dim < dimensions
        invariant best == 0.0 ==> dim == 0
        invariant best >= 0.0 && (best > 0.0 ==> best == scores[dim])
        invariant forall e :: 0 <= e < d ==> scores[e] <= best && (e < dim ==> scores[e] < best)
      {
        if scores[d] > best {
          dim, best := d, scores[d];
        }
        d := d + 1;
      }
      pos := means[dim];
    }

    /** Where in a leaf a point equal to `p` is, or the number of points if it is not. */
    method Scan(idx: seq<nat>, p: Point) returns (i: nat)
      requires AllPoints(points, dimensions) && LeafSound(idx, points) && |p| == dimensions
      ensures i <= |idx| && (i < |idx| ==> points[idx[i]] == p)
      ensures i == |idx| ==> forall k :: 0 <= k < |idx| ==> points[idx[k]] != p
    {
      i := 0;
      while i < |idx|
        invariant i <= |idx| && forall k :: 0 <= k < i ==> points[idx[k]] != p
      {
        var j := 0;
        while j < dimensions && points[idx[i]][j] == p[j]
          invariant j <= dimensions && points[idx[i]][..j] == p[..j]
        {
          assert points[idx[i]][..j + 1] == points[idx[i]][..j] + [points[idx[i]][j]] && p[..j + 1] == p[..j] + [p[j]];
          j := j + 1;
        }
        if j == dimensions {
          assert points[idx[i]][..j] == points[idx[i]] && p[..j] == p;
          return;
        }
        i := i + 1;
      }
    }

    /** Handing the points of a leaf out to two new ones. */
    method Distribute(idx: seq<nat>, dim: nat, pos: real, upper: BspNode, lower: BspNode)
      requires upper != lower && upper.idxarray == Some([]) && lower.idxarray == Some([])
      requires forall k :: 0 <= k < |idx| ==> idx[k] < |points| && dim < |points[idx[k]]|
      modifies upper`idxarray, lower`idxarray
      ensures upper.idxarray == Some(Part(idx, points, dim, pos, true, |idx|))
      ensures lower.idxarray == Some(Part(idx, points, dim, pos, false, |idx|))
    {
      var i := 0;
      while i < |idx|
        invariant i <= |idx|
        invariant upper.idxarray == Some(Part(idx, points, dim, pos, true, i))
        invariant lower.idxarray == Some(Part(idx, points, dim, pos, false, i))
      {
        assert forall part: seq<nat> :: part + [] == part;
        if points[idx[i]][dim] >= pos {
          upper.idxarray := Some(upper.idxarray.value + [idx[i]]);
        } else {
          lower.idxarray := Some(lower.idxarray.value + [idx[i]]);
        }
        i := i + 1;
      }
    }

    /** Replacing a full leaf by a split with two leaves. */
    method SplitLeaf(node: BspNode, ghost s: Shape) returns (ghost s': Shape)
      requires Rep(s) && s.Leaf? && s.node == node && Sound(s, points, dimensions)
      requires |s.idx| >= 2 && AllPoints(points, dimensions) && dimensions > 0
      modifies node
      ensures Rep(s') && s'.Split? && s'.node == node && s'.ge.Leaf? && s'.lt.Leaf? && Sound(s', points, dimensions)
      ensures Live(s') == Live(s) && s'.ge.idx != [] && s'.lt.idx != [] && |s'.ge.idx| + |s'.lt.idx| == |s.idx|
      ensures fresh(Foot(s') - {node}) && node in Foot(s')
    {
      hide BestSplit, Part;
      var idx := node.idxarray.value;
      var dim, pos := FindSplit(idx);
      BestInRange(idx, points, dimensions, dim, pos);
      var upper := new BspNode();
      var lower := new BspNode();
      Distribute(idx, dim, pos, upper, lower);
      node.ge, node.lt := upper, lower;
      node.idxarray := None;
      node.splitdim := dim;
      node.splitpos := pos;
      s' := Split(node, dim, pos, Leaf(upper, upper.idxarray.value), Leaf(lower, lower.idxarray.value));
      SplitSound(s, s', points, dimensions);
    }

    /** _bsp_add_point. */
    method AddTo(node: BspNode, p: Point, invdepth: nat, ghost s: Shape, ghost S: set<BspNode>)
      returns (i: nat, ghost s': Shape)
      requires Foot(s) <= S
      requires Rep(s) && s.node == node && Sound(s, points, dimensions) && AllPoints(points, dimensions)
      requires |p| == dimensions > 0 && Needed(s, p, dimensions, points) <= invdepth
      modifies this`points, Foot(s)
      ensures Rep(s') && s'.node == node && Sound(s', points, dimensions) && AllPoints(points, dimensions)
      ensures fresh(Foot(s') - Foot(s)) && Foot(s) <= Foot(s')
      ensures Added(s, s', old(points), points, p, i)
      ensures Splits(s') == Splits(s) + if MustSplit(s, p, dimensions, old(points)) then 1 else 0
      ensures s.Leaf? || NoneEmpty(s) ==> NoneEmpty(s')
      decreases invdepth, if s.Leaf? then 1 else 0
    {
      hide Sound, Needed, MustSplit, Added, Stored;
      if node.idxarray == None {
        AddedMeansSplits(s, p, dimensions, points);
        ghost var was := points;
        ghost var below;
        if p[node.splitdim] >= node.splitpos {
          i, below := AddTo(node.ge, p, invdepth - 1, s.ge, S);
        } else {
          i, below := AddTo(node.lt, p, invdepth - 1, s.lt, S);
        }
        s' := WithSide(s, p, below);
        AddedBelow(s, below, was, points, dimensions, p, i);
        return;
      }
      var idx := node.idxarray.value;
      LeafParts(s, points, dimensions, p);
      var k := Scan(idx, p);
      if k < |idx| {
        i, s' := idx[k], s;
        FoundInLeaf(s, points, dimensions, p, k);
      } else if |idx| != MAX_NODE_POINTS {
        i := |points|;
        AddedToLeaf(s, points, dimensions, p);
        node.idxarray := Some(idx + [i]);
        points := points + [p];
        s' := Leaf(node, idx + [i]);
      } else {
        ghost var split := SplitLeaf(node, s);
        SplitNeeds(s, split, points, dimensions, p);
        i, s' := AddTo(node, p, invdepth, split, Foot(split));
        AddedAfterSplit(s, split, s', old(points), points, p, i);
      }
    }

    /** bsp_add_point. */
    method AddPoint(p: Point) returns (i: nat)
      requires Valid() && |p| == dimensions && Needed(shape, p, dimensions, points) <= MAX_DEPTH
      modifies this, Repr
      ensures Valid() && fresh(Repr - old(Repr))
      ensures if old(Stored(Index(), points, p))
              then points == old(points) && Index() == old(Index()) && i in Index() && i < |points| && points[i] == p
              else i == |old(points)| && points == old(points) + [p] && Index() == old(Index()) + {i}
      ensures Splits(shape) == old(Splits(shape)) + if old(MustSplit(shape, p, dimensions, points)) then 1 else 0
      ensures old(shape.Leaf? || NoneEmpty(shape)) ==> NoneEmpty(shape)
    {
      hide Sound, Needed, MustSplit, Splits, NoneEmpty, Stored;
      ghost var after;
      i, after := AddTo(top, p, MAX_DEPTH, shape, Repr);
      shape, Repr := after, Foot(after);
    }

    /** _bsp_find_point. */
    method FindIn(node: BspNode, p: Point, ghost s: Shape) returns (i: int)
      requires Rep(s) && s.node == node && Sound(s, points, dimensions) && AllPoints(points, dimensions) &&
               |p| == dimensions
      ensures if Stored(Live(s), points, p) then i in Live(s) && 0 <= i < |points| && points[i] == p else i == -1
      decreases s
    {
      hide Stored;
      if node.ge == null {
        LeafParts(s, points, dimensions, p);
        var idx := node.idxarray.value;
        var k := Scan(idx, p);
        return if k < |idx| then idx[k] else -1;
      }
      StoredOnSide(s, points, dimensions, p);
      if p[node.splitdim] >= node.splitpos {
        i := FindIn(node.ge, p, s.ge);
      } else {
        i := FindIn(node.lt, p, s.lt);
      }
    }

    /** bsp_find_point. */
    method FindPoint(p: Point) returns (i: int)
      requires Valid() && |p| == dimensions
      ensures if Stored(Index(), points, p) then i in Index() && 0 <= i < |points| && points[i] == p else i == -1
    {
      i := FindIn(top, p, shape);
    }

    /** _bsp_remove_point: the last index of the leaf takes the place of the removed one. */
    method RemoveIn(node: BspNode, p: Point, ghost s: Shape, ghost S: set<BspNode>) returns (i: int, ghost s': Shape)
      requires Foot(s) <= S
      requires Rep(s) && s.node == node && Sound(s, points, dimensions) && AllPoints(points, dimensions) &&
               |p| == dimensions
      modifies Foot(s)
      ensures Rep(s') && s'.node == node && Foot(s') == Foot(s) && Sound(s', points, dimensions)
      ensures if Stored(Live(s), points, p)
              then i in Live(s) && 0 <= i < |points| && points[i] == p && Live(s') == Live(s) - {i}
              else i == -1 && s' == s
      ensures s'.Leaf? <==> s.Leaf?
      decreases s
    {
      hide Stored, Sound;
      if node.ge == null {
        LeafParts(s, points, dimensions, p);
        var idx := node.idxarray.value;
        var k := Scan(idx, p);
        if k == |idx| {
          return -1, s;
        }
        i := idx[k];
        node.idxarray := Some(idx[k := idx[|idx| - 1]][..|idx| - 1]);
        s' := Leaf(node, node.idxarray.value);
        RemovedFromLeaf(s, points, dimensions, k);
        return;
      }
      ghost var below;
      AddedMeansSplits(s, p, dimensions, points);
      StoredOnSide(s, points, dimensions, p);
      if p[node.splitdim] >= node.splitpos {
        i, below := RemoveIn(node.ge, p, s.ge, S);
      } else {
        i, below := RemoveIn(node.lt, p, s.lt, S);
      }
      s' := WithSide(s, p, below);
      RemovedBelow(s, below, points, dimensions, p, i);
    }

    /** bsp_remove_point.  The point keeps its place among all points, but is no longer found. */
    method RemovePoint(p: Point) returns (i: int)
      requires Valid() && |p| == dimensions
      modifies this`shape, Repr
      ensures Valid()
      ensures if old(Stored(Index(), points, p))
              then i in old(Index()) && 0 <= i < |points| && points[i] == p && Index() == old(Index()) - {i}
              else i == -1 && Index() == old(Index())
      ensures !Stored(Index(), points, p)
    {
      hide Sound;
      ghost var before, after := shape, shape;
      i, after := RemoveIn(top, p, shape, Repr);
      shape := after;
      if Stored(Live(before), points, p) && Stored(Live(after), points, p) {
        var j: nat :| j in Live(after) && j < |points| && points[j] == p;
        LiveDistinct(before, points, dimensions, i, j);
      }
    }

    /** The squared distance of point `i` from `p`. */
    method Measure(p: Point, i: nat) returns (dist: real)
      requires AllPoints(points, dimensions) && |p| == dimensions && i < |points|
      ensures dist == Distance(p, points[i], dimensions)
    {
      dist := 0.0;
      var d := 0;
      while d < dimensions
        invariant d <= dimensions && dist == Distance(p, points[i], d)
      {
        var diff := p[d] - points[i][d];
        dist := dist + Square(diff);
        d := d + 1;
      }
    }

    /** Whether index `i` is within the squared radius. */
    ghost predicate Near(p: Point, sq: real, i: nat)
      requires AllPoints(points, dimensions) && |p| == dimensions
      reads this
    {
      i < |points| && Distance(p, points[i], dimensions) <= sq
    }

    /** What a radius search adds: the indices within the squared radius, each once. */
    ghost predicate Found(live: set<nat>, p: Point, sq: real, r: seq<nat>)
      requires AllPoints(points, dimensions) && |p| == dimensions
      reads this
    {
      && (forall i :: i in r <==> i in live && Near(p, sq, i))
      && (forall k, l :: 0 <= k < l < |r| ==> r[k] != r[l])
    }

    lemma FoundMore(idx: seq<nat>, k: nat, p: Point, sq: real, r: seq<nat>)
      requires k < |idx| && LeafSound(idx, points) && AllPoints(points, dimensions) && |p| == dimensions
      requires Found(Elements(idx[..k]), p, sq, r)
      ensures Found(Elements(idx[..k + 1]), p, sq, if Near(p, sq, idx[k]) then r + [idx[k]] else r)
    {
      hide Near;
      NotBefore(idx, points, k);
      assert idx[..k + 1] == idx[..k] + [idx[k]];
      var more := r + [idx[k]];
      assert forall i :: i in more <==> i in r || i == idx[k];
      forall l | 0 <= l < |r|
        ensures r[l] != idx[k]
      {
        assert r[l] in r;
      }
    }

    method RangeLeaf(idx: seq<nat>, p: Point, reach: Reach, into: seq<nat>) returns (found: seq<nat>, ghost r: seq<nat>)
      requires LeafSound(idx, points) && AllPoints(points, dimensions) && |p| == dimensions
      ensures found == into + r && Found(Elements(idx), p, reach.Squared(), r)
    {
      hide Distance;
      var sq := reach.Squared();
      found, r := into, [];
      var k := 0;
      while k < |idx|
        invariant k <= |idx| && found == into + r
        invariant Found(Elements(idx[..k]), p, sq, r)
      {
        var dist := Measure(p, idx[k]);
        FoundMore(idx, k, p, sq, r);
        if dist <= sq {
          found, r := found + [idx[k]], r + [idx[k]];
        }
        k := k + 1;
      }
      assert idx[..k] == idx;
    }

    /** _bsp_add_points: both sides where the split is within the radius, one side otherwise. */
    method RangeIn(node: BspNode, p: Point, reach: Reach, into: seq<nat>, ghost s: Shape, ghost S: set<BspNode>)
      returns (found: seq<nat>, ghost r: seq<nat>)
      requires Foot(s) <= S && reach.Proper()
      requires Rep(s) && s.node == node && Sound(s, points, dimensions) && AllPoints(points, dimensions) &&
               |p| == dimensions
      ensures found == into + r && Found(Live(s), p, reach.Squared(), r)
      decreases s
    {
      hide Found, Sound, Near, LeafSound, Square;
      if node.ge == null {
        LeafParts(s, points, dimensions, p);
        found, r := RangeLeaf(node.idxarray.value, p, reach, into);
        return;
      }
      AddedMeansSplits(s, p, dimensions, points);
      var diff := p[node.splitdim] - node.splitpos;
      ghost var sq := reach.Squared();
      CoversSquared(diff, reach);
      if reach.Covers(diff) {
        ghost var upper, lower;
        found, upper := RangeIn(node.ge, p, reach, into, s.ge, S);
        found, lower := RangeIn(node.lt, p, reach, found, s.lt, S);
        r := upper + lower;
        FoundBoth(s, p, sq, upper, lower);
      } else if p[node.splitdim] >= node.splitpos {
        found, r := RangeIn(node.ge, p, reach, into, s.ge, S);
        FoundOne(s, p, sq, r);
      } else {
        found, r := RangeIn(node.lt, p, reach, into, s.lt, S);
        FoundOne(s, p, sq, r);
      }
    }

    /** No index is on both sides of a split. */
    lemma FoundBoth(s: Shape, p: Point, sq: real, upper: seq<nat>, lower: seq<nat>)
      requires s.Split? && Sound(s, points, dimensions) && AllPoints(points, dimensions) && |p| == dimensions
      requires Found(Live(s.ge), p, sq, upper) && Found(Live(s.lt), p, sq, lower)
      ensures Found(Live(s), p, sq, upper + lower)
    {
      hide Near;
      LiveInRange(s, points, dimensions);
      forall k, l | 0 <= k < |upper| && 0 <= l < |lower|
        ensures upper[k] != lower[l]
      {
        assert upper[k] in Live(s.ge) && lower[l] in Live(s.lt);
      }
    }

    /** Where the split is out of reach, so is everything beyond it. */
    lemma FoundOne(s: Shape, p: Point, sq: real, r: seq<nat>)
      requires s.Split? && Sound(s, points, dimensions) && AllPoints(points, dimensions) && |p| == dimensions
      requires s.dim < dimensions && Square(p[s.dim] - s.pos) > sq && Found(Live(Side(s, p)), p, sq, r)
      ensures Found(Live(s), p, sq, r)
    {
      hide Distance, Square;
      forall i | i in Live(s) && i !in Live(Side(s, p)) && i < |points|
        ensures !Near(p, sq, i)
      {
        BeyondSplit(p, points[i], dimensions, s.dim, s.pos);
      }
    }

    /** bsp_find_points: the radius is not negative. */
    method FindPoints(p: Point, radius: real, into: seq<nat>) returns (found: seq<nat>)
      requires Valid() && |p| == dimensions && radius >= 0.0
      ensures into <= found && Found(Index(), p, Square(radius), found[|into|..])
      ensures forall i :: i in found[|into|..] <==>
        i in Index() && i < |points| && Distance(p, points[i], dimensions) <= radius * radius
    {
      ghost var r;
      found, r := RangeIn(top, p, Radius(radius), into, shape, Repr);
      assert found[|into|..] == r;
    }

    /** _bsp_find_close: the nearest point of the leaf that `p` belongs to. */
    method CloseIn(node: BspNode, p: Point, ghost s: Shape, ghost S: set<BspNode>) returns (i: nat)
      requires Foot(s) <= S
      requires Rep(s) && s.node == node && Sound(s, points, dimensions) && AllPoints(points, dimensions) &&
               |p| == dimensions
      requires Reachable(Route(s, p, dimensions, points), p)
      ensures i in Live(s) && i < |points| && Distance(p, points[i], dimensions) < FLT_MAX
      decreases s
    {
      hide Distance;
      if node.ge == null {
        var idx := node.idxarray.value;
        var best: int, bestdist, k := -1, FLT_MAX, 0;
        while k < |idx|
          invariant k <= |idx| && -1 <= best < k && bestdist <= FLT_MAX
          invariant best >= 0 ==> bestdist == Distance(p, points[idx[best]], dimensions) < FLT_MAX
          invariant best < 0 ==> bestdist == FLT_MAX && forall l :: 0 <= l < k ==>
                    Distance(p, points[idx[l]], dimensions) >= FLT_MAX
        {
          var dist := Measure(p, idx[k]);
          if dist < bestdist {
            bestdist, best := dist, k;
          }
          k := k + 1;
        }
        return idx[best];
      }
      if p[node.splitdim] >= node.splitpos {
        i := CloseIn(node.ge, p, s.ge, S);
      } else {
        i := CloseIn(node.lt, p, s.lt, S);
      }
    }

    /** Some point of a leaf is at a distance that the program can represent. */
    ghost predicate Reachable(idx: seq<nat>, p: Point)
      requires AllPoints(points, dimensions) && |p| == dimensions
      reads this
    {
      exists k :: 0 <= k < |idx| && idx[k] < |points| && Distance(p, points[idx[k]], dimensions) < FLT_MAX
    }

    /** The nearest of some points, or -1 if none is at a distance that the program can represent. */
    method Nearest(p: Point, among: seq<nat>) returns (closest: int)
      requires AllPoints(points, dimensions) && |p| == dimensions && forall k :: 0 <= k < |among| ==>
               among[k] < |points|
      ensures closest == -1 || (closest in among && 0 <= closest)
      ensures closest == -1 <==> forall k :: 0 <= k < |among| ==> Distance(p, points[among[k]], dimensions) >= FLT_MAX
      ensures closest != -1 ==> forall k :: 0 <= k < |among| ==>
        Distance(p, points[closest], dimensions) <= Distance(p, points[among[k]], dimensions)
    {
      hide Distance;
      closest := -1;
      var bestradius, k := FLT_MAX, 0;
      while k < |among|
        invariant k <= |among| && bestradius <= FLT_MAX
        invariant closest == -1 || (closest in among[..k] && 0 <= closest < |points|)
        invariant closest == -1 ==> bestradius == FLT_MAX
        invariant closest != -1 ==> bestradius == Distance(p, points[closest], dimensions) < FLT_MAX
        invariant forall l :: 0 <= l < k ==> Distance(p, points[among[l]], dimensions) >= bestradius
      {
        var radius := Measure(p, among[k]);
        assert among[..k + 1] == among[..k] + [among[k]];
        if radius < bestradius {
          closest, bestradius := among[k], radius;
        }
        k := k + 1;
      }
      assert among[..k] == among;
    }

    /** bsp_find_closest: no point in the tree is nearer. */
    method FindClosest(p: Point) returns (closest: int)
      requires Valid() && |p| == dimensions && Reachable(Route(shape, p, dimensions, points), p)
      ensures closest in Index() && 0 <= closest < |points|
      ensures forall i :: i in Index() && i < |points| ==>
        Distance(p, points[closest], dimensions) <= Distance(p, points[i], dimensions)
    {
      hide Distance, Sound;
      LiveInRange(shape, points, dimensions);
      var close := CloseIn(top, p, shape, Repr);
      var sqradius := Measure(p, close);
      var among: seq<nat>;
      ghost var r;
      among, r := RangeIn(top, p, Root(sqradius), [], shape, Repr);
      assert among == r;
      assert forall k :: 0 <= k < |among| ==> among[k] in among;
      assert Near(p, sqradius, close) && close in among;
      closest := Nearest(p, among);
      NearestOfAll(p, among, close, closest, sqradius);
    }

    /** The nearest of those within the distance of a stored point is the nearest of all. */
    lemma NearestOfAll(p: Point, among: seq<nat>, close: nat, closest: int, sq: real)
      requires Valid() && |p| == dimensions && Found(Index(), p, sq, among)
      requires close in among && Distance(p, points[close], dimensions) == sq < FLT_MAX
      requires forall k :: 0 <= k < |among| ==> among[k] < |points|
      requires closest == -1 <==> forall k :: 0 <= k < |among| ==> Distance(p, points[among[k]], dimensions) >= FLT_MAX
      requires closest == -1 || (closest in among && 0 <= closest)
      requires closest != -1 ==> forall k :: 0 <= k < |among| ==>
        Distance(p, points[closest], dimensions) <= Distance(p, points[among[k]], dimensions)
      ensures closest in Index() && 0 <= closest < |points|
      ensures forall i :: i in Index() && i < |points| ==>
        Distance(p, points[closest], dimensions) <= Distance(p, points[i], dimensions)
    {
      hide Distance, Sound;
      var k: nat :| k < |among| && among[k] == close;
      forall i | i in Index() && i < |points|
        ensures Distance(p, points[closest], dimensions) <= Distance(p, points[i], dimensions)
      {
        if Distance(p, points[i], dimensions) <= sq {
          assert Near(p, sq, i) && i in among;
        }
      }
    }

    /**
     bsp_find_closest_points: everything within the radius is added to a list, and the nearest of the
     whole list is returned; with an empty list to start from that is the nearest within the radius.
     */
    method FindClosestPoints(p: Point, radius: real, into: seq<nat>) returns (closest: int, found: seq<nat>)
      requires Valid() && |p| == dimensions && radius >= 0.0 && forall k :: 0 <= k < |into| ==> into[k] < |points|
      ensures into <= found && Found(Index(), p, Square(radius), found[|into|..])
      ensures forall k :: 0 <= k < |found| ==> found[k] < |points|
      ensures closest == -1 <==> forall k :: 0 <= k < |found| ==> Distance(p, points[found[k]], dimensions) >= FLT_MAX
      ensures closest != -1 ==>
        && closest in found && 0 <= closest < |points|
        && forall k :: 0 <= k < |found| ==> Distance(p, points[closest], dimensions) <= Distance(p, points[found[k]],
                                                                                                 dimensions)
      ensures into == [] && closest != -1 ==>
        && closest in Index()
        && forall i :: i in Index() && Near(p, Square(radius), i) ==>
          Distance(p, points[closest], dimensions) <= Distance(p, points[i], dimensions)
    {
      hide Distance, Sound, Square;
      LiveInRange(shape, points, dimensions);
      found := FindPoints(p, radius, into);
      ghost var r := found[|into|..];
      forall k | 0 <= k < |found|
        ensures found[k] < |points|
      {
        if k >= |into| {
          assert found[k] == r[k - |into|] && r[k - |into|] in r;
        }
      }
      closest := Nearest(p, found);
      if into == [] {
        assert r == found;
        forall i | i in Index() && Near(p, Square(radius), i)
          ensures exists k :: 0 <= k < |found| && found[k] == i
        {
          assert i in r;
        }
      }
    }
  }

  lemma NotBefore(idx: seq<nat>, points: seq<Point>, k: nat)
    requires LeafSound(idx, points) && k < |idx|
    ensures idx[k] !in idx[..k]
  {
    forall l | 0 <= l < k
      ensures idx[l] != idx[k]
    {
      assert points[idx[l]] != points[idx[k]];
    }
  }

  /** A tree that only ever grew has no empty leaf once it holds a point, so that nearest search starts somewhere. */
  lemma {:induction false} RouteNotEmpty(s: Shape, p: Point, dims: nat, points: seq<Point>)
    requires Sound(s, points, dims) && |p| == dims && NoneEmpty(s)
    ensures Route(s, p, dims, points) != []
  {
    if s.Split? {
      RouteNotEmpty(Side(s, p), p, dims, points);
    }
  }

  /** What is left of a leaf after its last index took the place of index `k`. */
  lemma RemovedFromLeaf(s: Shape, points: seq<Point>, dims: nat, k: nat)
    requires s.Leaf? && Sound(s, points, dims) && k < |s.idx|
    ensures var idx := s.idx[k := s.idx[|s.idx| - 1]][..|s.idx| - 1];
      var s' := s.(idx := idx);
      Sound(s', points, dims) && Live(s') == Live(s) - {s.idx[k]} && s.idx[k] in Live(s)
  {
    var n := |s.idx| - 1;
    var idx := s.idx[k := s.idx[n]][..n];
    assert forall l :: 0 <= l < n ==> idx[l] == if l == k then s.idx[n] else s.idx[l];
    forall i | i in s.idx && i != s.idx[k]
      ensures i in idx
    {
      var l: nat :| l < |s.idx| && s.idx[l] == i;
      assert idx[if l == n then k else l] == i;
    }
  }

  /** A removal on one side is a removal. */
  lemma RemovedBelow(s: Shape, below: Shape, points: seq<Point>, dims: nat, p: Point, i: int)
    requires s.Split? && Sound(s, points, dims) && AllPoints(points, dims) && |p| == dims
    requires Sound(below, points, dims)
    requires if Stored(Live(Side(s, p)), points, p)
             then i in Live(Side(s, p)) && 0 <= i < |points| && points[i] == p && Live(below) == Live(Side(s, p)) - {i}
             else i == -1 && below == Side(s, p)
    ensures Sound(WithSide(s, p, below), points, dims)
    ensures if Stored(Live(s), points, p)
            then i in Live(s) && 0 <= i < |points| && points[i] == p && Live(WithSide(s, p, below)) == Live(s) - {i}
            else i == -1 && WithSide(s, p, below) == s
  {
    StoredOnSide(s, points, dims, p);
  }

  lemma LeafParts(s: Shape, points: seq<Point>, dims: nat, p: Point)
    requires s.Leaf? && Sound(s, points, dims) && |p| == dims
    ensures LeafSound(s.idx, points)
    ensures Stored(Live(s), points, p) <==> exists k :: 0 <= k < |s.idx| && points[s.idx[k]] == p
    ensures MustSplit(s, p, dims, points) <==> |s.idx| == MAX_NODE_POINTS && !Stored(Live(s), points, p)
  {
    forall k | 0 <= k < |s.idx| && points[s.idx[k]] == p
      ensures Stored(Live(s), points, p)
    {
      assert s.idx[k] in Live(s);
    }
  }

  lemma FoundInLeaf(s: Shape, points: seq<Point>, dims: nat, p: Point, k: nat)
    requires s.Leaf? && Sound(s, points, dims) && k < |s.idx| && points[s.idx[k]] == p
    ensures Stored(Live(s), points, p) && Added(s, s, points, points, p, s.idx[k])
    ensures NoneEmpty(s)
  {
    assert s.idx[k] in Live(s);
  }

  /** After a split there is room on both sides. */
  lemma SplitNeeds(s: Shape, split: Shape, points: seq<Point>, dims: nat, p: Point)
    requires s.Leaf? && Sound(s, points, dims) && |s.idx| == MAX_NODE_POINTS && !Stored(Live(s), points, p) &&
             |p| == dims
    requires split.Split? && split.ge.Leaf? && split.lt.Leaf? && Sound(split, points, dims) && Live(split) == Live(s)
    requires split.ge.idx != [] && split.lt.idx != [] && |split.ge.idx| + |split.lt.idx| == |s.idx|
    ensures Needed(split, p, dims, points) == 2 == Needed(s, p, dims, points)
    ensures !MustSplit(split, p, dims, points) && MustSplit(s, p, dims, points)
    ensures NoneEmpty(split) && Splits(split) == Splits(s) + 1
  {
    assert NoneEmpty(split.ge) && NoneEmpty(split.lt) && Splits(split.ge) == 0 == Splits(split.lt);
  }

  lemma AddedAfterSplit(s: Shape, split: Shape, s': Shape, points: seq<Point>, points': seq<Point>, p: Point, i: nat)
    requires Live(split) == Live(s) && !Stored(Live(s), points, p) && Added(split, s', points, points', p, i)
    ensures Added(s, s', points, points', p, i)
  {
  }

  /** The split of a leaf is sound and holds the same points. */
  lemma SplitSound(s: Shape, s': Shape, points: seq<Point>, dims: nat)
    requires s.Leaf? && Sound(s, points, dims) && |s.idx| >= 2 && AllPoints(points, dims)
    requires s'.Split? && s'.ge.Leaf? && s'.lt.Leaf? && BestSplit(s.idx, points, dims, s'.dim, s'.pos)
    requires s'.ge.idx == Part(s.idx, points, s'.dim, s'.pos, true, |s.idx|)
    requires s'.lt.idx == Part(s.idx, points, s'.dim, s'.pos, false, |s.idx|)
    ensures Sound(s', points, dims) && Live(s') == Live(s)
    ensures s'.ge.idx != [] && s'.lt.idx != [] && |s'.ge.idx| + |s'.lt.idx| == |s.idx|
  {
    hide BestSplit, Part, LeafSound;
    var idx := s.idx;
    SplitSeparates(idx, points, dims, s'.dim, s'.pos);
    LeafInRange(idx, points);
    PartMembers(idx, points, s'.dim, s'.pos, true, |idx|);
    PartMembers(idx, points, s'.dim, s'.pos, false, |idx|);
    PartLengths(idx, points, s'.dim, s'.pos, |idx|);
    PartSound(idx, points, s'.dim, s'.pos, true, |idx|);
    PartSound(idx, points, s'.dim, s'.pos, false, |idx|);
    assert idx[..|idx|] == idx;
  }

  lemma LeafInRange(idx: seq<nat>, points: seq<Point>)
    requires LeafSound(idx, points)
    ensures forall k :: 0 <= k < |idx| ==> idx[k] < |points|
  {
  }
}
