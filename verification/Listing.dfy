/**
 The order of a model: its undeleted nodes, parents before children, each with its depth.  A walk
 whose callback always continues shows exactly this listing; and a listing determines the tree.
 */
module Listing {
  import opened Matrix
  import opened Hierarchy
  import opened InOrder

  datatype Entry = Entry(node: Node, info: Info, level: nat)

  function List(ts: seq<Tree>, i: nat, level: nat): seq<Entry>
    requires i <= |ts|
    decreases ts, |ts| - i
  {
    if i == |ts| then []
    else if ts[i].info.deleted then List(ts, i + 1, level)
    else [Entry(ts[i].node, ts[i].info, level)] + List(ts[i].kids, 0, level + 1) + List(ts, i + 1, level)
  }

  lemma ListOne(t: Tree, level: nat)
    requires !t.info.deleted
    ensures List([t], 0, level) == [Entry(t.node, t.info, level)] + List(t.kids, 0, level + 1)
  {
    assert List([t], 1, level) == [];
  }

  /** Every entry of a listing is for the node at some position. */
  lemma {:induction false} ListPosition(ts: seq<Tree>, i: nat, level: nat, k: nat) returns (p: Path)
    requires i <= |ts| && k < |List(ts, i, level)|
    ensures IsPath(ts, p) && i <= p[0] && TreeAt(ts, p).node == List(ts, i, level)[k].node
    decreases ts, |ts| - i
  {
    if ts[i].info.deleted {
      p := ListPosition(ts, i + 1, level, k);
    } else if k == 0 {
      p := [i];
    } else if k <= |List(ts[i].kids, 0, level + 1)| {
      var q := ListPosition(ts[i].kids, 0, level + 1, k - 1);
      p := [i] + q;
      assert p[1..] == q;
    } else {
      p := ListPosition(ts, i + 1, level, k - 1 - |List(ts[i].kids, 0, level + 1)|);
    }
  }

  /** Where no node is at two positions, none is listed twice. */
  lemma {:induction false} ListApart(ts: seq<Tree>, i: nat, level: nat, k: nat, l: nat)
    requires i <= |ts| && NodesApart(ts) && k < l < |List(ts, i, level)|
    ensures List(ts, i, level)[k].node != List(ts, i, level)[l].node
    decreases ts, |ts| - i
  {
    hide NodesApart;
    var below := List(ts[i].kids, 0, level + 1);
    if ts[i].info.deleted {
      ListApart(ts, i + 1, level, k, l);
    } else if k > |below| {
      ListApart(ts, i + 1, level, k - 1 - |below|, l - 1 - |below|);
    } else if 0 < k && l <= |below| {
      ApartBelow(ts, i);
      ListApart(ts[i].kids, 0, level + 1, k - 1, l - 1);
    } else {
      ListApartHere(ts, i, level, k, l);
    }
  }

  /** An entry of the node `i` itself and one below it, or an entry of either and one after them. */
  lemma ListApartHere(ts: seq<Tree>, i: nat, level: nat, k: nat, l: nat)
    requires i < |ts| && NodesApart(ts) && !ts[i].info.deleted && k < l < |List(ts, i, level)|
    requires k <= |List(ts[i].kids, 0, level + 1)| && (k == 0 || l > |List(ts[i].kids, 0, level + 1)|)
    ensures List(ts, i, level)[k].node != List(ts, i, level)[l].node
  {
    hide NodesApart;
    var n := |List(ts[i].kids, 0, level + 1)|;
    var p, q := [i], [i];
    if k > 0 {
      var p' := ListPosition(ts[i].kids, 0, level + 1, k - 1);
      p := [i] + p';
      assert p[1..] == p';
    }
    if l <= n {
      var q' := ListPosition(ts[i].kids, 0, level + 1, l - 1);
      q := [i] + q';
      assert q[1..] == q';
    } else {
      q := ListPosition(ts, i + 1, level, l - 1 - n);
    }
    if TreeAt(ts, p).node == TreeAt(ts, q).node {
      SamePosition(ts, p, q);
    }
  }

  /** The same, as visits: with the current matrix. */
  function Preorder(ts: seq<Tree>, i: nat, m: Matrix, level: nat, dec: Decoder): seq<Visit>
    requires i <= |ts|
    decreases ts, |ts| - i
  {
    if i == |ts| then []
    else if ts[i].info.deleted then Preorder(ts, i + 1, m, level, dec)
    else
      var m' := Enter(m, ts[i].info, dec);
      [Visit(ts[i].node, m', level)] + Preorder(ts[i].kids, 0, m', level + 1, dec) + Preorder(ts, i + 1, m', level, dec)
  }

  /** The current matrix of a level after its last node. */
  function Final(ts: seq<Tree>, i: nat, m: Matrix, dec: Decoder): Matrix
    requires i <= |ts|
    decreases |ts| - i
  {
    if i == |ts| then m
    else Final(ts, i + 1, if ts[i].info.deleted then m else Enter(m, ts[i].info, dec), dec)
  }

  lemma {:induction false} WalkAll(ts: seq<Tree>, i: nat, m: Matrix, level: nat, cb: Callback, dec: Decoder,
                                   trace: seq<Visit>)
    requires i <= |ts| && forall h: seq<Visit> :: cb(h) == Continue
    ensures Walk(ts, i, m, level, cb, dec, trace) ==
            Run(trace + Preorder(ts, i, m, level, dec), Running, Final(ts, i, m, dec))
    decreases ts, |ts| - i
  {
    hide Enter;
    if i == |ts| {
    } else if ts[i].info.deleted {
      WalkAll(ts, i + 1, m, level, cb, dec, trace);
    } else {
      var m' := Enter(m, ts[i].info, dec);
      var trace' := trace + [Visit(ts[i].node, m', level)];
      WalkAll(ts[i].kids, 0, m', level + 1, cb, dec, trace');
      var below := trace' + Preorder(ts[i].kids, 0, m', level + 1, dec);
      WalkAll(ts, i + 1, m', level, cb, dec, below);
      Regroup(trace, [Visit(ts[i].node, m', level)], Preorder(ts[i].kids, 0, m', level + 1, dec),
              Preorder(ts, i + 1, m', level, dec));
    }
  }

  lemma Regroup(a: seq<Visit>, b: seq<Visit>, c: seq<Visit>, d: seq<Visit>)
    ensures a + b + c + d == a + (b + c + d)
  {
  }

  /** The visits show the nodes and the depths of the listing. */
  ghost predicate Shows(vs: seq<Visit>, es: seq<Entry>) {
    |vs| == |es| && forall k :: 0 <= k < |vs| ==> vs[k].node == es[k].node && vs[k].level == es[k].level
  }

  lemma {:induction false} PreorderShowsList(ts: seq<Tree>, i: nat, m: Matrix, level: nat, dec: Decoder)
    requires i <= |ts|
    ensures Shows(Preorder(ts, i, m, level, dec), List(ts, i, level))
    decreases ts, |ts| - i
  {
    hide Enter;
    if i == |ts| {
    } else if ts[i].info.deleted {
      PreorderShowsList(ts, i + 1, m, level, dec);
    } else {
      var m' := Enter(m, ts[i].info, dec);
      PreorderShowsList(ts[i].kids, 0, m', level + 1, dec);
      PreorderShowsList(ts, i + 1, m', level, dec);
      ShowsSum([Visit(ts[i].node, m', level)], [Entry(ts[i].node, ts[i].info, level)],
               Preorder(ts[i].kids, 0, m', level + 1, dec), List(ts[i].kids, 0, level + 1));
      ShowsSum([Visit(ts[i].node, m', level)] + Preorder(ts[i].kids, 0, m', level + 1, dec),
               [Entry(ts[i].node, ts[i].info, level)] + List(ts[i].kids, 0, level + 1),
               Preorder(ts, i + 1, m', level, dec), List(ts, i + 1, level));
    }
  }

  lemma ShowsSum(a: seq<Visit>, a': seq<Entry>, b: seq<Visit>, b': seq<Entry>)
    requires Shows(a, a') && Shows(b, b')
    ensures Shows(a + b, a' + b')
  {
  }

  /* A listing determines the tree. */

  /** A tree without its deleted parts, and without the identity of its nodes. */
  datatype Shape = Shape(record: Record, kids: seq<Shape>)

  function ShapesOf(ts: seq<Tree>, i: nat): seq<Shape>
    requires i <= |ts|
    decreases ts, |ts| - i
  {
    if i == |ts| then []
    else if ts[i].info.deleted then ShapesOf(ts, i + 1)
    else [Shape(ts[i].info.record, ShapesOf(ts[i].kids, 0))] + ShapesOf(ts, i + 1)
  }

  datatype Line = Line(record: Record, level: nat)

  function Lines(ss: seq<Shape>, level: nat): seq<Line>
    decreases ss
  {
    if ss == [] then []
    else [Line(ss[0].record, level)] + Lines(ss[0].kids, level + 1) + Lines(ss[1..], level)
  }

  function LinesOf(es: seq<Entry>): (ls: seq<Line>)
    ensures |ls| == |es| && forall k :: 0 <= k < |es| ==> ls[k] == Line(es[k].info.record, es[k].level)
  {
    seq(|es|, k requires 0 <= k < |es| => Line(es[k].info.record, es[k].level))
  }

  lemma {:induction false} ListIsLines(ts: seq<Tree>, i: nat, level: nat)
    requires i <= |ts|
    ensures LinesOf(List(ts, i, level)) == Lines(ShapesOf(ts, i), level)
    decreases ts, |ts| - i
  {
    if i == |ts| {
    } else if ts[i].info.deleted {
      ListIsLines(ts, i + 1, level);
    } else {
      ListIsLines(ts[i].kids, 0, level + 1);
      ListIsLines(ts, i + 1, level);
      var a, b, c := [Entry(ts[i].node, ts[i].info, level)], List(ts[i].kids, 0, level + 1), List(ts, i + 1, level);
      assert LinesOf(a + b + c) == LinesOf(a) + LinesOf(b) + LinesOf(c);
      assert ShapesOf(ts, i)[1..] == ShapesOf(ts, i + 1);
    }
  }

  lemma {:induction false} LinesAreDeep(ss: seq<Shape>, level: nat)
    ensures forall k :: 0 <= k < |Lines(ss, level)| ==> Lines(ss, level)[k].level >= level
    ensures if ss == [] then Lines(ss, level) == [] else Lines(ss, level) != [] && Lines(ss, level)[0].level == level
    decreases ss
  {
    if ss != [] {
      LinesAreDeep(ss[0].kids, level + 1);
      LinesAreDeep(ss[1..], level);
    }
  }

  /** Where the deeper lines end is where the next sibling begins, so the split is the only one. */
  lemma SplitUnique(a: seq<Line>, b: seq<Line>, c: seq<Line>, d: seq<Line>, level: nat)
    requires a + b == c + d
    requires forall k :: 0 <= k < |a| ==> a[k].level > level
    requires forall k :: 0 <= k < |c| ==> c[k].level > level
    requires b != [] ==> b[0].level == level
    requires d != [] ==> d[0].level == level
    ensures a == c && b == d
  {
    assert forall k :: 0 <= k < |c| ==> (c + d)[k] == c[k];
    assert forall k :: 0 <= k < |a| ==> (a + b)[k] == a[k];
    assert b != [] ==> (a + b)[|a|] == b[0];
    assert d != [] ==> (c + d)[|c|] == d[0];
    assert a == (a + b)[..|a|] && c == (c + d)[..|c|];
    assert b == (a + b)[|a|..] && d == (c + d)[|c|..];
  }

  lemma LinesParts(ss: seq<Shape>, level: nat)
    requires ss != []
    ensures var a, b := Lines(ss[0].kids, level + 1), Lines(ss[1..], level);
      && Lines(ss, level) == [Line(ss[0].record, level)] + (a + b)
      && (forall k :: 0 <= k < |a| ==> a[k].level > level)
      && (b != [] ==> b[0].level == level)
  {
    hide Lines;
    LinesUnfold(ss, level);
    LinesAreDeep(ss[0].kids, level + 1);
    LinesAreDeep(ss[1..], level);
  }

  lemma LinesUnfold(ss: seq<Shape>, level: nat)
    requires ss != []
    ensures Lines(ss, level) == [Line(ss[0].record, level)] + (Lines(ss[0].kids, level + 1) + Lines(ss[1..], level))
  {
    var h, a, b := [Line(ss[0].record, level)], Lines(ss[0].kids, level + 1), Lines(ss[1..], level);
    assert h + a + b == h + (a + b);
  }

  /** Records with their depths determine the trees. */
  lemma {:induction false} LinesInjective(ss: seq<Shape>, tt: seq<Shape>, level: nat)
    requires Lines(ss, level) == Lines(tt, level)
    ensures ss == tt
    decreases ss
  {
    LinesAreDeep(ss, level);
    LinesAreDeep(tt, level);
    if ss != [] {
      LinesParts(ss, level);
      LinesParts(tt, level);
      hide Lines;
      var a, b := Lines(ss[0].kids, level + 1), Lines(ss[1..], level);
      var c, d := Lines(tt[0].kids, level + 1), Lines(tt[1..], level);
      assert a + b == Lines(ss, level)[1..] == Lines(tt, level)[1..] == c + d;
      SplitUnique(a, b, c, d, level);
      LinesInjective(ss[0].kids, tt[0].kids, level + 1);
      LinesInjective(ss[1..], tt[1..], level);
      assert Lines(ss, level)[0] == Lines(tt, level)[0];
      assert ss == [ss[0]] + ss[1..] && tt == [tt[0]] + tt[1..];
    }
  }
}
