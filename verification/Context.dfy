/**
 What an in-order walk shows, said without walking: which nodes, in which order, and with which
 current matrix.
 */
module Context {
  import opened Matrix
  import opened Hierarchy
  import opened InOrder

  /** Neither the node at `p` nor any node above it is deleted. */
  predicate Live(ts: seq<Tree>, p: Path)
    requires IsPath(ts, p)
  {
    !ts[p[0]].info.deleted && (|p| == 1 || Live(ts[p[0]].kids, p[1..]))
  }

  /** The matrices of the undeleted matrix nodes among the first `n` siblings, in order. */
  function Factors(ts: seq<Tree>, n: nat, dec: Decoder): seq<Matrix>
    requires n <= |ts|
  {
    if n == 0 then []
    else Factors(ts, n - 1, dec) +
         (if !ts[n - 1].info.deleted && ts[n - 1].info.record.opcode == 49
          then [dec(ts[n - 1].info.record.data)] else [])
  }

  /** The factors that matter at `p`: for each level, those of the siblings up to and including the one on `p`. */
  function PathFactors(ts: seq<Tree>, p: Path, dec: Decoder): seq<Matrix>
    requires IsPath(ts, p)
  {
    Factors(ts, p[0] + 1, dec) + if |p| == 1 then [] else PathFactors(ts[p[0]].kids, p[1..], dec)
  }

  /** `m` times the matrices, from left to right. */
  function Product(m: Matrix, ms: seq<Matrix>): Matrix {
    if ms == [] then m else Mul(Product(m, ms[..|ms| - 1]), ms[|ms| - 1])
  }

  lemma {:induction false} ProductOfSum(m: Matrix, a: seq<Matrix>, b: seq<Matrix>)
    ensures Product(m, a + b) == Product(Product(m, a), b)
  {
    hide Mul;
    if b == [] {
      assert a + b == a;
    } else {
      ProductOfSum(m, a, b[..|b| - 1]);
      assert (a + b)[..|a + b| - 1] == a + b[..|b| - 1];
    }
  }

  /** The visit owed to the node at `p`. */
  function VisitAt(ts: seq<Tree>, p: Path, m: Matrix, level: nat, dec: Decoder): Visit
    requires IsPath(ts, p)
  {
    Visit(TreeAt(ts, p).node, Product(m, PathFactors(ts, p, dec)), level + |p| - 1)
  }

  lemma VisitBelow(ts: seq<Tree>, i: nat, p: Path, m: Matrix, level: nat, dec: Decoder)
    requires i < |ts| && IsPath(ts[i].kids, p)
    ensures IsPath(ts, [i] + p)
    ensures VisitAt(ts, [i] + p, m, level, dec) ==
            VisitAt(ts[i].kids, p, Product(m, Factors(ts, i + 1, dec)), level + 1, dec)
    ensures Live(ts, [i] + p) <==> !ts[i].info.deleted && Live(ts[i].kids, p)
  {
    assert ([i] + p)[1..] == p;
    ProductOfSum(m, Factors(ts, i + 1, dec), PathFactors(ts[i].kids, p, dec));
  }

  lemma EnterIsFactor(ts: seq<Tree>, i: nat, m: Matrix, dec: Decoder)
    requires i < |ts|
    ensures Product(m, Factors(ts, i + 1, dec)) ==
            if ts[i].info.deleted then Product(m, Factors(ts, i, dec))
            else Enter(Product(m, Factors(ts, i, dec)), ts[i].info, dec)
  {
    hide Mul;
    var a := Factors(ts, i, dec);
    var b := Factors(ts, i + 1, dec);
    if b != a {
      assert b[..|b| - 1] == a;
    } else {
      assert a + [] == a;
    }
  }

  /** `v` is the visit owed to a live path that starts at sibling `i` or later. */
  ghost predicate Owed(ts: seq<Tree>, i: nat, v: Visit, m: Matrix, level: nat, dec: Decoder) {
    exists p: Path :: IsPath(ts, p) && p[0] >= i && Live(ts, p) && v == VisitAt(ts, p, m, level, dec)
  }

  /** Everything `trace'` has beyond `trace` is owed. */
  ghost predicate AllOwed(ts: seq<Tree>, i: nat, m: Matrix, level: nat, dec: Decoder, trace: seq<Visit>,
                          trace': seq<Visit>) {
    trace <= trace' && forall k :: |trace| <= k < |trace'| ==> Owed(ts, i, trace'[k], m, level, dec)
  }

  /**
   Matrix context: as long as the callback never asks to skip to a pop node, every visit shows the
   product of the initial matrix with all undeleted matrix nodes that precede the node in its own and
   its ancestors' lists of siblings, itself included.  Finished subtrees contribute nothing.
   */
  lemma {:induction false} WalkShowsContext(ts: seq<Tree>, i: nat, m: Matrix, level: nat, cb: Callback, dec: Decoder,
                                            trace: seq<Visit>)
    requires i <= |ts| && forall h: seq<Visit> :: cb(h) != Pop
    ensures var r := Walk(ts, i, Product(m, Factors(ts, i, dec)), level, cb, dec, trace);
      && AllOwed(ts, i, m, level, dec, trace, r.trace)
      && r.status != Stuck
      && (r.status == Running ==> r.matrix == Product(m, Factors(ts, |ts|, dec)))
    decreases ts, |ts| - i, 1
  {
    hide Product, Factors, AllOwed, Enter;
    if i == |ts| {
      NothingNew(ts, i, m, level, dec, trace);
    } else {
      var t := ts[i];
      EnterIsFactor(ts, i, m, dec);
      var m' := Product(m, Factors(ts, i + 1, dec));
      if t.info.deleted {
        OwedAfter(ts, i, m, level, cb, dec, trace);
      } else {
        var trace' := trace + [Visit(t.node, m', level)];
        OwedHere(ts, i, m, level, dec, trace);
        if cb(trace') == Continue {
          WalkShowsContext(t.kids, 0, m', level + 1, cb, dec, trace');
          NoFactors(t.kids, m', dec);
          var below := Walk(t.kids, 0, m', level + 1, cb, dec, trace');
          OwedBelow(ts, i, m, level, dec, trace', below.trace);
          Chain(ts, i, m, level, dec, trace, trace', below.trace);
          if below.status == Running {
            OwedAfter(ts, i, m, level, cb, dec, below.trace);
            Chain(ts, i, m, level, dec, trace, below.trace, Walk(ts, i + 1, m', level, cb, dec, below.trace).trace);
          }
        } else if cb(trace') != Exit {
          OwedAfter(ts, i, m, level, cb, dec, trace');
          Chain(ts, i, m, level, dec, trace, trace', Walk(ts, i + 1, m', level, cb, dec, trace').trace);
        }
      }
    }
  }

  /** The induction hypothesis for the siblings that follow. */
  lemma {:induction false} OwedAfter(ts: seq<Tree>, i: nat, m: Matrix, level: nat, cb: Callback, dec: Decoder,
                                     trace: seq<Visit>)
    requires i < |ts| && forall h: seq<Visit> :: cb(h) != Pop
    ensures var r := Walk(ts, i + 1, Product(m, Factors(ts, i + 1, dec)), level, cb, dec, trace);
      && AllOwed(ts, i, m, level, dec, trace, r.trace)
      && r.status != Stuck
      && (r.status == Running ==> r.matrix == Product(m, Factors(ts, |ts|, dec)))
    decreases ts, |ts| - i, 0
  {
    WalkShowsContext(ts, i + 1, m, level, cb, dec, trace);
    hide Walk, Product, Factors;
    assert forall v :: Owed(ts, i + 1, v, m, level, dec) ==> Owed(ts, i, v, m, level, dec);
  }

  lemma NothingNew(ts: seq<Tree>, i: nat, m: Matrix, level: nat, dec: Decoder, a: seq<Visit>)
    ensures AllOwed(ts, i, m, level, dec, a, a)
  {
  }

  lemma Chain(ts: seq<Tree>, i: nat, m: Matrix, level: nat, dec: Decoder, a: seq<Visit>, b: seq<Visit>, c: seq<Visit>)
    requires AllOwed(ts, i, m, level, dec, a, b) && AllOwed(ts, i, m, level, dec, b, c)
    ensures AllOwed(ts, i, m, level, dec, a, c)
  {
    hide Owed;
  }

  lemma NoFactors(ts: seq<Tree>, m: Matrix, dec: Decoder)
    ensures Product(m, Factors(ts, 0, dec)) == m
  {
  }

  lemma OwedHere(ts: seq<Tree>, i: nat, m: Matrix, level: nat, dec: Decoder, trace: seq<Visit>)
    requires i < |ts| && !ts[i].info.deleted
    ensures var v := Visit(ts[i].node, Product(m, Factors(ts, i + 1, dec)), level);
      AllOwed(ts, i, m, level, dec, trace, trace + [v])
  {
    var p := [i];
    assert IsPath(ts, p) && Live(ts, p);
    assert Factors(ts, i + 1, dec) + [] == Factors(ts, i + 1, dec);
    assert Owed(ts, i, VisitAt(ts, p, m, level, dec), m, level, dec);
  }

  lemma OwedBelow(ts: seq<Tree>, i: nat, m: Matrix, level: nat, dec: Decoder, a: seq<Visit>, b: seq<Visit>)
    requires i < |ts| && !ts[i].info.deleted
    requires AllOwed(ts[i].kids, 0, Product(m, Factors(ts, i + 1, dec)), level + 1, dec, a, b)
    ensures AllOwed(ts, i, m, level, dec, a, b)
  {
    hide Product, Factors, VisitAt, PathFactors, TreeAt, Live;
    var m' := Product(m, Factors(ts, i + 1, dec));
    forall v | Owed(ts[i].kids, 0, v, m', level + 1, dec)
      ensures Owed(ts, i, v, m, level, dec)
    {
      var p: Path :| IsPath(ts[i].kids, p) && Live(ts[i].kids, p) && v == VisitAt(ts[i].kids, p, m', level + 1, dec);
      VisitBelow(ts, i, p, m, level, dec);
      assert IsPath(ts, [i] + p);
    }
  }
}
