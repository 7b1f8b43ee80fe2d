/**
 What a callback can keep a traversal from showing: what is below a node at whose visit it did not ask to go
 on below.  A listing that leaves out what is below the nodes of a set says which visits are left.
 */
module Pruning {
  import opened Matrix
  import opened Hierarchy
  import opened InOrder

  /**
   What a listing leaves out: all below the nodes of `below`; after a node of `past`, its siblings up to the next pop
   node; and, as the in-order walk does (`io`), deleted nodes with what is below them.
   */
  datatype Cut = Cut(below: set<Node>, past: set<Node>, io: bool)

  /** The next position on the same level. */
  ghost function After(ts: seq<Tree>, i: nat, c: Cut): (j: nat)
    requires i < |ts|
    ensures i < j <= |ts|
  {
    if ts[i].node in c.past && !(c.io && ts[i].info.deleted) then NextPop(ts, i + 1) else i + 1
  }

  /** The visits in order that are left. */
  ghost function Pruned(ts: seq<Tree>, i: nat, m: Matrix, level: nat, dec: Decoder, c: Cut): seq<Visit>
    requires i <= |ts|
    decreases ts, |ts| - i
  {
    if i == |ts| then []
    else if c.io && ts[i].info.deleted then Pruned(ts, i + 1, m, level, dec, c)
    else
      var m' := Enter(m, ts[i].info, dec);
      [Visit(ts[i].node, m', level)]
      + (if ts[i].node in c.below then [] else Pruned(ts[i].kids, 0, m', level + 1, dec, c))
      + Pruned(ts, After(ts, i, c), m', level, dec, c)
  }

  /** The listing from position `i` on comes to position `t` of the same level. */
  ghost predicate Reached(ts: seq<Tree>, i: nat, t: nat, c: Cut)
    requires i <= |ts|
    decreases |ts| - i
  {
    i == t || (i < t && i < |ts| && Reached(ts, After(ts, i, c), t, c))
  }

  /** Nothing keeps the listing from position `p`. */
  ghost predicate Open(ts: seq<Tree>, i: nat, p: Path, c: Cut)
    requires i <= |ts| && IsPath(ts, p)
    decreases |p|
  {
    && Reached(ts, i, p[0], c) && (c.io ==> !ts[p[0]].info.deleted)
    && (|p| == 1 || (ts[p[0]].node !in c.below && Open(ts[p[0]].kids, 0, p[1..], c)))
  }

  lemma {:induction false} ReachedOn(ts: seq<Tree>, i: nat, t: nat, c: Cut)
    requires i <= |ts| && Reached(ts, i, t, c)
    ensures i <= t
  {
  }

  /** A node at such a position is visited. */
  lemma {:induction false} PrunedHas(ts: seq<Tree>, i: nat, m: Matrix, level: nat, dec: Decoder, c: Cut, p: Path)
    returns (k: nat)
    requires i <= |ts| && IsPath(ts, p) && Open(ts, i, p, c)
    ensures var vs := Pruned(ts, i, m, level, dec, c);
      k < |vs| && vs[k].node == TreeAt(ts, p).node
    decreases ts, |ts| - i
  {
    hide Enter, After;
    var m' := Enter(m, ts[i].info, dec);
    if i < p[0] {
      if c.io && ts[i].info.deleted {
        DeletedNext(ts, i, c);
        k := PrunedHas(ts, i + 1, m, level, dec, c, p);
      } else {
        var below := if ts[i].node in c.below then [] else Pruned(ts[i].kids, 0, m', level + 1, dec, c);
        var l := PrunedHas(ts, After(ts, i, c), m', level, dec, c, p);
        k := 1 + |below| + l;
      }
    } else if |p| == 1 {
      k := 0;
    } else {
      var l := PrunedHas(ts[i].kids, 0, m', level + 1, dec, c, p[1..]);
      k := 1 + l;
    }
  }

  lemma DeletedNext(ts: seq<Tree>, i: nat, c: Cut)
    requires i < |ts| && c.io && ts[i].info.deleted
    ensures After(ts, i, c) == i + 1
  {
  }

  /** And whatever is visited is at such a position. */
  lemma {:induction false} PrunedOnly(ts: seq<Tree>, i: nat, m: Matrix, level: nat, dec: Decoder, c: Cut, k: nat)
    returns (p: Path)
    requires i <= |ts| && k < |Pruned(ts, i, m, level, dec, c)|
    ensures IsPath(ts, p) && i <= p[0] && Open(ts, i, p, c)
    ensures TreeAt(ts, p).node == Pruned(ts, i, m, level, dec, c)[k].node
    decreases ts, |ts| - i
  {
    hide Enter, After;
    var m' := Enter(m, ts[i].info, dec);
    if c.io && ts[i].info.deleted {
      DeletedNext(ts, i, c);
      p := PrunedOnly(ts, i + 1, m, level, dec, c, k);
    } else {
      var below := if ts[i].node in c.below then [] else Pruned(ts[i].kids, 0, m', level + 1, dec, c);
      if k == 0 {
        p := [i];
      } else if k <= |below| {
        var q := PrunedOnly(ts[i].kids, 0, m', level + 1, dec, c, k - 1);
        p := [i] + q;
        assert p[1..] == q;
      } else {
        p := PrunedOnly(ts, After(ts, i, c), m', level, dec, c, k - 1 - |below|);
      }
    }
  }

  ghost function PrunedBelow(ts: seq<Tree>, i: nat, m: Matrix, level: nat, dec: Decoder, c: Cut): seq<Visit>
    requires i < |ts|
  {
    if ts[i].node in c.below then [] else Pruned(ts[i].kids, 0, Enter(m, ts[i].info, dec), level + 1, dec, c)
  }

  lemma PrunedUnfold(ts: seq<Tree>, i: nat, m: Matrix, level: nat, dec: Decoder, c: Cut)
    requires i < |ts|
    ensures Pruned(ts, i, m, level, dec, c) ==
            if c.io && ts[i].info.deleted then Pruned(ts, i + 1, m, level, dec, c)
            else
              [Visit(ts[i].node, Enter(m, ts[i].info, dec), level)] + PrunedBelow(ts, i, m, level, dec, c)
              + Pruned(ts, After(ts, i, c), Enter(m, ts[i].info, dec), level, dec, c)
  {
    hide Enter, After;
  }

  lemma PrunedNone(ts: seq<Tree>, m: Matrix, level: nat, dec: Decoder, c: Cut)
    ensures Pruned(ts, |ts|, m, level, dec, c) == []
  {
  }

  /** Where no node is at two positions none is visited twice. */
  lemma {:induction false} PrunedApart(ts: seq<Tree>, i: nat, m: Matrix, level: nat, dec: Decoder, c: Cut,
                                       k: nat, l: nat)
    requires i <= |ts| && NodesApart(ts) && k < l < |Pruned(ts, i, m, level, dec, c)|
    ensures Pruned(ts, i, m, level, dec, c)[k].node != Pruned(ts, i, m, level, dec, c)[l].node
    decreases ts, |ts| - i
  {
    hide NodesApart, Enter, After, Pruned, PrunedBelow;
    PrunedNone(ts, m, level, dec, c);
    PrunedUnfold(ts, i, m, level, dec, c);
    var m' := Enter(m, ts[i].info, dec);
    var n := |PrunedBelow(ts, i, m, level, dec, c)|;
    if c.io && ts[i].info.deleted {
      PrunedApart(ts, i + 1, m, level, dec, c, k, l);
    } else if k > n {
      PrunedApart(ts, After(ts, i, c), m', level, dec, c, k - 1 - n, l - 1 - n);
    } else if 0 < k && l <= n {
      ApartBelow(ts, i);
      BelowIs(ts, i, m, level, dec, c);
      PrunedApart(ts[i].kids, 0, m', level + 1, dec, c, k - 1, l - 1);
    } else {
      var p := PlaceAt(ts, i, m, level, dec, c, k);
      var q := PlaceAt(ts, i, m, level, dec, c, l);
      if TreeAt(ts, p).node == TreeAt(ts, q).node {
        SamePosition(ts, p, q);
      }
    }
  }

  lemma BelowIs(ts: seq<Tree>, i: nat, m: Matrix, level: nat, dec: Decoder, c: Cut)
    requires i < |ts| && PrunedBelow(ts, i, m, level, dec, c) != []
    ensures PrunedBelow(ts, i, m, level, dec, c) ==
            Pruned(ts[i].kids, 0, Enter(m, ts[i].info, dec), level + 1, dec, c)
  {
    hide Enter, Pruned;
  }

  /** A visit of node `i`, of a node below it, or of one after them. */
  lemma PlaceAt(ts: seq<Tree>, i: nat, m: Matrix, level: nat, dec: Decoder, c: Cut, k: nat)
    returns (p: Path)
    requires i < |ts| && !(c.io && ts[i].info.deleted) && k < |Pruned(ts, i, m, level, dec, c)|
    ensures IsPath(ts, p) && TreeAt(ts, p).node == Pruned(ts, i, m, level, dec, c)[k].node
    ensures var n := |PrunedBelow(ts, i, m, level, dec, c)|;
      if k == 0 then p == [i] else if k <= n then p[0] == i && |p| > 1 else p[0] > i
  {
    hide Enter, After, Pruned, PrunedBelow;
    PrunedUnfold(ts, i, m, level, dec, c);
    var m' := Enter(m, ts[i].info, dec);
    var n := |PrunedBelow(ts, i, m, level, dec, c)|;
    if k == 0 {
      p := [i];
    } else if k <= n {
      BelowIs(ts, i, m, level, dec, c);
      var q := PrunedOnly(ts[i].kids, 0, m', level + 1, dec, c, k - 1);
      p := [i] + q;
      assert p[1..] == q;
    } else {
      p := PrunedOnly(ts, After(ts, i, c), m', level, dec, c, k - 1 - n);
    }
  }


  /* Which positions a listing comes to. */

  ghost predicate PopBetween(ts: seq<Tree>, j: nat, t: nat)
    requires t < |ts|
  {
    exists n :: j < n <= t && ts[n].info.Kind().PopNode?
  }

  /** A sibling of `P` before position `t` keeps the listing from it, as no pop node follows up to there. */
  ghost predicate Passed(ts: seq<Tree>, i: nat, t: nat, P: set<Node>)
    requires t < |ts|
  {
    exists j :: i <= j < t && ts[j].node in P && !PopBetween(ts, j, t)
  }

  lemma {:induction false} ReachedUnless(ts: seq<Tree>, i: nat, t: nat, c: Cut)
    requires i <= t < |ts|
    requires forall j :: i <= j < |ts| && ts[j].node in c.past ==>
                           Reached(ts, i, j, c) && !(c.io && ts[j].info.deleted)
    ensures Reached(ts, i, t, c) <==> !Passed(ts, i, t, c.past)
    decreases |ts| - i
  {
    if i < t {
      var next := After(ts, i, c);
      forall j | next <= j < |ts| && ts[j].node in c.past
        ensures Reached(ts, next, j, c) && !(c.io && ts[j].info.deleted)
      {
        assert Reached(ts, i, j, c);
      }
      if next <= t {
        ReachedUnless(ts, next, t, c);
        forall j | i <= j < next && ts[j].node in c.past
          ensures PopBetween(ts, j, t)
        {
          assert Reached(ts, i, j, c);
          if i < j {
            ReachedOn(ts, next, j, c);
          }
        }
      } else {
        assert ts[i].node in c.past && !PopBetween(ts, i, t);
      }
    }
  }

  /** The list that has position `q`. */
  function Siblings(ts: seq<Tree>, q: Path): (l: seq<Tree>)
    requires IsPath(ts, q)
    ensures q[|q| - 1] < |l| && l[q[|q| - 1]] == TreeAt(ts, q)
  {
    if |q| == 1 then ts else Siblings(ts[q[0]].kids, q[1..])
  }

  /** Nothing of this position keeps what is at `p` from being visited. */
  ghost predicate Passes(ts: seq<Tree>, p: Path, q: Path, c: Cut)
    requires IsPath(ts, q)
  {
    && (q != p ==> TreeAt(ts, q).node !in c.below) && (c.io ==> !TreeAt(ts, q).info.deleted)
    && !Passed(Siblings(ts, q), 0, q[|q| - 1], c.past)
  }

  /** The listing comes to all nodes after which it skips. */
  ghost predicate PastOpen(ts: seq<Tree>, c: Cut) {
    forall q: Path :: IsPath(ts, q) && TreeAt(ts, q).node in c.past ==> Open(ts, 0, q, c)
  }

  lemma PastOpenBelow(ts: seq<Tree>, i: nat, c: Cut)
    requires i < |ts| && PastOpen(ts, c)
    ensures PastOpen(ts[i].kids, c)
  {
    hide Reached;
    var kids := ts[i].kids;
    forall q: Path | IsPath(kids, q) && TreeAt(kids, q).node in c.past
      ensures Open(kids, 0, q, c)
    {
      var q' := [i] + q;
      assert q'[1..] == q && IsPath(ts, q') && TreeAt(ts, q') == TreeAt(kids, q);
      assert Open(ts, 0, q', c);
    }
  }

  lemma TopReached(ts: seq<Tree>, t: nat, c: Cut)
    requires t < |ts| && PastOpen(ts, c)
    ensures Reached(ts, 0, t, c) <==> !Passed(ts, 0, t, c.past)
  {
    hide Reached, Passed;
    forall j | 0 <= j < |ts| && ts[j].node in c.past
      ensures Reached(ts, 0, j, c) && !(c.io && ts[j].info.deleted)
    {
      var q: Path := [j];
      assert IsPath(ts, q) && TreeAt(ts, q) == ts[j];
      assert Open(ts, 0, q, c);
    }
    ReachedUnless(ts, 0, t, c);
  }

  /** A position is open if it and all positions above it let pass. */
  lemma {:induction false} OpenAbove(ts: seq<Tree>, p: Path, c: Cut)
    requires IsPath(ts, p) && PastOpen(ts, c)
    ensures Open(ts, 0, p, c) <==> forall q: Path :: IsPath(ts, q) && q <= p ==> Passes(ts, p, q, c)
    decreases |p|
  {
    hide Reached, Passed, PastOpen;
    var top, kids := [p[0]], ts[p[0]].kids;
    assert IsPath(ts, top) && top <= p && TreeAt(ts, top) == ts[p[0]] && Siblings(ts, top) == ts;
    TopReached(ts, p[0], c);
    if |p| > 1 {
      PastOpenBelow(ts, p[0], c);
      OpenAbove(kids, p[1..], c);
    }
    forall q: Path | IsPath(ts, q) && q <= p
      ensures Open(ts, 0, p, c) ==> Passes(ts, p, q, c)
    {
      if |q| == 1 {
        assert q == top;
      } else {
        PassesBelow(ts, p, q, c);
      }
    }
    if forall q: Path :: IsPath(ts, q) && q <= p ==> Passes(ts, p, q, c) {
      assert Passes(ts, p, top, c);
      if |p| > 1 {
        forall r: Path | IsPath(kids, r) && r <= p[1..]
          ensures Passes(kids, p[1..], r, c)
        {
          var q := top + r;
          assert q[1..] == r && IsPath(ts, q) && q <= p;
          PassesBelow(ts, p, q, c);
        }
      }
    }
  }

  lemma PassesBelow(ts: seq<Tree>, p: Path, q: Path, c: Cut)
    requires IsPath(ts, p) && IsPath(ts, q) && q <= p && |q| > 1
    ensures |p| > 1 && IsPath(ts[p[0]].kids, q[1..]) && q[1..] <= p[1..]
    ensures Passes(ts, p, q, c) <==> Passes(ts[p[0]].kids, p[1..], q[1..], c)
  {
    hide Passed;
    assert q == [p[0]] + q[1..] && p == [p[0]] + p[1..];
    assert q[1..][|q[1..]| - 1] == q[|q| - 1];
  }

  /* What the callback answered. */

  /** An answer after which nothing below the node is shown. */
  predicate Stops(a: Answer, io: bool) {
    if io then a != Continue else a == Sibling
  }

  /** The answer at visit `k`. */
  function AnswerAt(cb: Callback, shown: seq<Visit>, k: nat): Answer
    requires k < |shown|
  {
    cb(shown[..k + 1])
  }

  ghost predicate ShownIn(shown: seq<Visit>, node: Node) {
    exists k :: 0 <= k < |shown| && shown[k].node == node
  }

  /** At a visit of the node the callback asked not to go on below. */
  ghost predicate StoppedAt(cb: Callback, shown: seq<Visit>, node: Node, io: bool) {
    exists k :: 0 <= k < |shown| && shown[k].node == node && Stops(AnswerAt(cb, shown, k), io)
  }

  /** At a visit of the node the callback asked for the next pop node. */
  ghost predicate PoppedAt(cb: Callback, shown: seq<Visit>, node: Node) {
    exists k :: 0 <= k < |shown| && shown[k].node == node && AnswerAt(cb, shown, k) == Pop
  }

  /** A sibling before `q` was answered with POP, and no pop node follows it up to `q`. */
  ghost predicate PassedOver(ts: seq<Tree>, cb: Callback, shown: seq<Visit>, q: Path)
    requires IsPath(ts, q)
  {
    var l, t := Siblings(ts, q), q[|q| - 1];
    exists j :: 0 <= j < t && PoppedAt(cb, shown, l[j].node) && !PopBetween(l, j, t)
  }

  ghost predicate NoneTwice(shown: seq<Visit>) {
    forall k, l :: 0 <= k < l < |shown| ==> shown[k].node != shown[l].node
  }

  /** What the answers leave out of a listing. */
  ghost function CutOf(cb: Callback, shown: seq<Visit>, io: bool): (c: Cut)
    ensures c.io == io && (!io ==> c.past == {})
    ensures forall x :: x in c.below ==> StoppedAt(cb, shown, x, io)
    ensures forall k :: 0 <= k < |shown| && Stops(AnswerAt(cb, shown, k), io) ==> shown[k].node in c.below
    ensures forall x :: x in c.past ==> PoppedAt(cb, shown, x)
    ensures forall k :: 0 <= k < |shown| && io && AnswerAt(cb, shown, k) == Pop ==> shown[k].node in c.past
  {
    Cut(set k | 0 <= k < |shown| && Stops(AnswerAt(cb, shown, k), io) :: shown[k].node,
        set k | 0 <= k < |shown| && io && AnswerAt(cb, shown, k) == Pop :: shown[k].node, io)
  }

  lemma CutOfHas(cb: Callback, shown: seq<Visit>, io: bool, x: Node)
    ensures x in CutOf(cb, shown, io).below <==> StoppedAt(cb, shown, x, io)
    ensures x in CutOf(cb, shown, io).past <==> io && PoppedAt(cb, shown, x)
  {
  }

  /**
   What is shown is just what nothing keeps from being shown: each node of which no node above was answered
   with a stop is shown, once, and no other node; in order, nothing that is deleted or passed over, with all below it.
   */
  ghost predicate ShowsAllBut(ts: seq<Tree>, cb: Callback, shown: seq<Visit>, io: bool) {
    && NoneTwice(shown)
    && (forall p: Path :: IsPath(ts, p) ==>
          (ShownIn(shown, TreeAt(ts, p).node) <==>
             forall q: Path :: IsPath(ts, q) && q <= p ==>
               && (q != p ==> !StoppedAt(cb, shown, TreeAt(ts, q).node, io))
               && (io ==> !TreeAt(ts, q).info.deleted && !PassedOver(ts, cb, shown, q))))
    && (forall k :: 0 <= k < |shown| ==> exists p: Path :: IsPath(ts, p) && TreeAt(ts, p).node == shown[k].node)
  }

  /** The position of a visit of the listing is open. */
  lemma ShownOpen(ts: seq<Tree>, m: Matrix, level: nat, dec: Decoder, shown: seq<Visit>, c: Cut, p: Path)
    requires NodesApart(ts) && multiset(shown) == multiset(Pruned(ts, 0, m, level, dec, c)) && IsPath(ts, p)
    ensures ShownIn(shown, TreeAt(ts, p).node) <==> Open(ts, 0, p, c)
  {
    hide NodesApart, Pruned, Open;
    var vs := Pruned(ts, 0, m, level, dec, c);
    if Open(ts, 0, p, c) {
      var k := PrunedHas(ts, 0, m, level, dec, c, p);
      var l := Found(vs, shown, k);
    }
    if ShownIn(shown, TreeAt(ts, p).node) {
      var l :| 0 <= l < |shown| && shown[l].node == TreeAt(ts, p).node;
      var k := Found(shown, vs, l);
      var q := PrunedOnly(ts, 0, m, level, dec, c, k);
      SamePosition(ts, p, q);
    }
  }

  /** The same condition in terms of the answers. */
  lemma PassesTold(ts: seq<Tree>, cb: Callback, shown: seq<Visit>, io: bool, p: Path, q: Path)
    requires IsPath(ts, q)
    ensures Passes(ts, p, q, CutOf(cb, shown, io)) <==>
              && (q != p ==> !StoppedAt(cb, shown, TreeAt(ts, q).node, io))
              && (io ==> !TreeAt(ts, q).info.deleted && !PassedOver(ts, cb, shown, q))
  {
    hide CutOf, StoppedAt, PoppedAt, PopBetween;
    var c := CutOf(cb, shown, io);
    CutOfHas(cb, shown, io, TreeAt(ts, q).node);
    var l, t := Siblings(ts, q), q[|q| - 1];
    forall j | 0 <= j < t
      ensures l[j].node in c.past <==> io && PoppedAt(cb, shown, l[j].node)
    {
      CutOfHas(cb, shown, io, l[j].node);
    }
  }

  /** Visits that are those of the listing, in any order, show all but what the answers leave out. */
  lemma PrunedShows(ts: seq<Tree>, m: Matrix, level: nat, dec: Decoder, cb: Callback, shown: seq<Visit>, io: bool)
    requires NodesApart(ts) && NoneTwice(shown)
    requires multiset(shown) == multiset(Pruned(ts, 0, m, level, dec, CutOf(cb, shown, io)))
    ensures ShowsAllBut(ts, cb, shown, io)
  {
    hide NodesApart, NoneTwice, Pruned, Open, StoppedAt, PassedOver, Passes;
    var c := CutOf(cb, shown, io);
    var vs := Pruned(ts, 0, m, level, dec, c);
    forall p: Path | IsPath(ts, p)
      ensures ShownIn(shown, TreeAt(ts, p).node) <==> Open(ts, 0, p, c)
    {
      ShownOpen(ts, m, level, dec, shown, c, p);
    }
    assert PastOpen(ts, c);
    forall p: Path | IsPath(ts, p)
      ensures Open(ts, 0, p, c) <==>
              forall q: Path :: IsPath(ts, q) && q <= p ==>
                && (q != p ==> !StoppedAt(cb, shown, TreeAt(ts, q).node, io))
                && (io ==> !TreeAt(ts, q).info.deleted && !PassedOver(ts, cb, shown, q))
    {
      OpenAbove(ts, p, c);
      forall q: Path | IsPath(ts, q) && q <= p
        ensures Passes(ts, p, q, c) <==>
                  && (q != p ==> !StoppedAt(cb, shown, TreeAt(ts, q).node, io))
                  && (io ==> !TreeAt(ts, q).info.deleted && !PassedOver(ts, cb, shown, q))
      {
        PassesTold(ts, cb, shown, io, p, q);
      }
    }
    forall k | 0 <= k < |shown|
      ensures exists p: Path :: IsPath(ts, p) && TreeAt(ts, p).node == shown[k].node
    {
      var l := Found(shown, vs, k);
      var p := PrunedOnly(ts, 0, m, level, dec, c, l);
    }
  }

  lemma Found(a: seq<Visit>, b: seq<Visit>, k: nat) returns (l: nat)
    requires multiset(a) <= multiset(b) && k < |a|
    ensures l < |b| && b[l] == a[k]
  {
    assert a[k] in multiset(a) && a[k] in multiset(b) && a[k] in b;
    l :| 0 <= l < |b| && b[l] == a[k];
  }

  /** Part of a listing without repetitions has none. */
  lemma PartOnce(ts: seq<Tree>, m: Matrix, level: nat, dec: Decoder, shown: seq<Visit>, c: Cut)
    requires NodesApart(ts) && multiset(shown) <= multiset(Pruned(ts, 0, m, level, dec, c))
    ensures NoneTwice(shown)
  {
    hide NodesApart, Pruned;
    var vs := Pruned(ts, 0, m, level, dec, c);
    forall k, l | 0 <= k < l < |shown|
      ensures shown[k].node != shown[l].node
    {
      if shown[k].node == shown[l].node {
        var i := Found(shown, vs, k);
        var j := Found(shown, vs, l);
        if i < j {
          PrunedApart(ts, 0, m, level, dec, c, i, j);
        } else if j < i {
          PrunedApart(ts, 0, m, level, dec, c, j, i);
        } else {
          Twice(shown, k, l);
          var h := Again(vs, i);
          if h < i {
            PrunedApart(ts, 0, m, level, dec, c, h, i);
          } else {
            PrunedApart(ts, 0, m, level, dec, c, i, h);
          }
        }
      }
    }
  }

  lemma Twice(s: seq<Visit>, k: nat, l: nat)
    requires k < l < |s| && s[k] == s[l]
    ensures multiset(s)[s[k]] >= 2
  {
    assert s == s[..l] + [s[l]] + s[l + 1..];
    assert s[..l][k] == s[k];
    assert s[k] in multiset(s[..l]);
  }

  lemma Again(s: seq<Visit>, i: nat) returns (h: nat)
    requires i < |s| && multiset(s)[s[i]] >= 2
    ensures h < |s| && h != i && s[h] == s[i]
  {
    assert s == s[..i] + [s[i]] + s[i + 1..];
    var rest := s[..i] + s[i + 1..];
    assert multiset(s) == multiset(s[..i]) + multiset{s[i]} + multiset(s[i + 1..]);
    assert s[i] in multiset(rest) && s[i] in rest;
    var j :| 0 <= j < |rest| && rest[j] == s[i];
    h := if j < i then j else j + 1;
  }

  /** The answer at a visit does not depend on what comes after it. */
  lemma SameAnswer(cb: Callback, a: seq<Visit>, b: seq<Visit>, k: nat)
    requires a <= b && k < |a|
    ensures AnswerAt(cb, a, k) == AnswerAt(cb, b, k)
  {
    assert a[..k + 1] == b[..k + 1];
  }

  /** What is left out is told by the answers at the visits from `from` on. */
  ghost predicate Fits(cb: Callback, shown: seq<Visit>, from: nat, c: Cut) {
    forall k :: from <= k < |shown| ==>
      && (shown[k].node in c.below <==> Stops(AnswerAt(cb, shown, k), c.io))
      && (shown[k].node in c.past <==> c.io && AnswerAt(cb, shown, k) == Pop)
  }

  lemma FitsPart(cb: Callback, a: seq<Visit>, b: seq<Visit>, from: nat, from': nat, c: Cut)
    requires a <= b && from <= from' && Fits(cb, b, from, c)
    ensures Fits(cb, a, from', c)
  {
    forall k | from' <= k < |a|
      ensures a[k].node in c.below <==> Stops(AnswerAt(cb, a, k), c.io)
      ensures a[k].node in c.past <==> c.io && AnswerAt(cb, a, k) == Pop
    {
      SameAnswer(cb, a, b, k);
    }
  }

  /** Where no node is shown twice the answers tell what is left out. */
  lemma CutFits(cb: Callback, shown: seq<Visit>, io: bool)
    requires NoneTwice(shown)
    ensures Fits(cb, shown, 0, CutOf(cb, shown, io))
  {
    hide CutOf;
    var c := CutOf(cb, shown, io);
    forall k | 0 <= k < |shown|
      ensures shown[k].node in c.below <==> Stops(AnswerAt(cb, shown, k), io)
      ensures shown[k].node in c.past <==> io && AnswerAt(cb, shown, k) == Pop
    {
      CutOfHas(cb, shown, io, shown[k].node);
    }
  }

  /* The in-order walk. */

  lemma {:induction false} WalkGrows(ts: seq<Tree>, i: nat, m: Matrix, level: nat, cb: Callback, dec: Decoder,
                                     trace: seq<Visit>)
    requires i <= |ts|
    ensures trace <= Walk(ts, i, m, level, cb, dec, trace).trace
    decreases ts, |ts| - i
  {
    hide Enter;
    if i < |ts| {
      if ts[i].info.deleted {
        WalkGrows(ts, i + 1, m, level, cb, dec, trace);
      } else {
        var m' := Enter(m, ts[i].info, dec);
        var trace' := trace + [Visit(ts[i].node, m', level)];
        WalkGrows(ts[i].kids, 0, m', level + 1, cb, dec, trace');
        WalkGrows(ts, i + 1, m', level, cb, dec, Walk(ts[i].kids, 0, m', level + 1, cb, dec, trace').trace);
        WalkGrows(ts, i + 1, m', level, cb, dec, trace');
        var j := NextPop(ts, i + 1);
        if j < |ts| {
          WalkGrows(ts, j, m', level, cb, dec, trace');
        }
      }
    }
  }

  lemma FirstShown(ts: seq<Tree>, i: nat, m: Matrix, level: nat, cb: Callback, dec: Decoder, trace: seq<Visit>)
    requires i < |ts| && !ts[i].info.deleted
    ensures trace + [Visit(ts[i].node, Enter(m, ts[i].info, dec), level)] <=
            Walk(ts, i, m, level, cb, dec, trace).trace
  {
    hide Enter;
    var m' := Enter(m, ts[i].info, dec);
    var trace' := trace + [Visit(ts[i].node, m', level)];
    WalkGrows(ts[i].kids, 0, m', level + 1, cb, dec, trace');
    WalkGrows(ts, i + 1, m', level, cb, dec, Walk(ts[i].kids, 0, m', level + 1, cb, dec, trace').trace);
    WalkGrows(ts, i + 1, m', level, cb, dec, trace');
    var j := NextPop(ts, i + 1);
    if j < |ts| {
      WalkGrows(ts, j, m', level, cb, dec, trace');
    }
  }

  /** One step of a walk that is not ended. */
  lemma WalkStep(ts: seq<Tree>, i: nat, m: Matrix, level: nat, cb: Callback, dec: Decoder, trace: seq<Visit>)
    requires i < |ts| && Walk(ts, i, m, level, cb, dec, trace).status == Running
    ensures var run := Walk(ts, i, m, level, cb, dec, trace);
      if ts[i].info.deleted then run == Walk(ts, i + 1, m, level, cb, dec, trace)
      else
        var m' := Enter(m, ts[i].info, dec);
        var trace' := trace + [Visit(ts[i].node, m', level)];
        if cb(trace') == Continue then
          var below := Walk(ts[i].kids, 0, m', level + 1, cb, dec, trace');
          && below.status == Running && run == Walk(ts, i + 1, m', level, cb, dec, below.trace)
          && trace' <= below.trace <= run.trace
        else
          var j := if cb(trace') == Pop then NextPop(ts, i + 1) else i + 1;
          run == Walk(ts, j, m', level, cb, dec, trace') && trace' <= run.trace
  {
    hide Enter;
    var m' := Enter(m, ts[i].info, dec);
    var trace' := trace + [Visit(ts[i].node, m', level)];
    if !ts[i].info.deleted {
      FirstShown(ts, i, m, level, cb, dec, trace);
      WalkGrows(ts[i].kids, 0, m', level + 1, cb, dec, trace');
      WalkGrows(ts, i + 1, m', level, cb, dec, Walk(ts[i].kids, 0, m', level + 1, cb, dec, trace').trace);
    }
  }

  /** A walk that is not ended shows the listing without what the answers leave out. */
  lemma {:induction false} WalkPruned(ts: seq<Tree>, i: nat, m: Matrix, level: nat, cb: Callback, dec: Decoder,
                                      trace: seq<Visit>, c: Cut)
    requires i <= |ts| && c.io
    requires var run := Walk(ts, i, m, level, cb, dec, trace);
      run.status == Running && Fits(cb, run.trace, |trace|, c)
    ensures Walk(ts, i, m, level, cb, dec, trace).trace == trace + Pruned(ts, i, m, level, dec, c)
    decreases ts, |ts| - i
  {
    hide Enter, Fits, Pruned, PrunedBelow, After, Walk, NextPop;
    if i == |ts| {
      PrunedNone(ts, m, level, dec, c);
      WalkEnd(ts, m, level, cb, dec, trace);
    } else {
      PrunedUnfold(ts, i, m, level, dec, c);
      WalkStep(ts, i, m, level, cb, dec, trace);
      if ts[i].info.deleted {
        WalkPruned(ts, i + 1, m, level, cb, dec, trace, c);
      } else {
        WalkPrunedHere(ts, i, m, level, cb, dec, trace, c);
        var m' := Enter(m, ts[i].info, dec);
        var trace' := trace + [Visit(ts[i].node, m', level)];
        var run := Walk(ts, i, m, level, cb, dec, trace);
        if cb(trace') == Continue {
          var below := Walk(ts[i].kids, 0, m', level + 1, cb, dec, trace');
          FitsPart(cb, below.trace, run.trace, |trace|, |trace'|, c);
          FitsPart(cb, run.trace, run.trace, |trace|, |below.trace|, c);
          WalkPruned(ts[i].kids, 0, m', level + 1, cb, dec, trace', c);
          WalkPruned(ts, i + 1, m', level, cb, dec, below.trace, c);
        } else {
          FitsPart(cb, run.trace, run.trace, |trace|, |trace'|, c);
          WalkPruned(ts, After(ts, i, c), m', level, cb, dec, trace', c);
        }
      }
    }
  }

  lemma WalkEnd(ts: seq<Tree>, m: Matrix, level: nat, cb: Callback, dec: Decoder, trace: seq<Visit>)
    ensures Walk(ts, |ts|, m, level, cb, dec, trace) == Run(trace, Running, m)
  {
  }

  /** What the answer at the first visit has to do with `c`: what is below, and where the walk goes on. */
  lemma WalkPrunedHere(ts: seq<Tree>, i: nat, m: Matrix, level: nat, cb: Callback, dec: Decoder, trace: seq<Visit>,
                       c: Cut)
    requires i < |ts| && !ts[i].info.deleted && c.io
    requires var run := Walk(ts, i, m, level, cb, dec, trace);
      run.status == Running && Fits(cb, run.trace, |trace|, c)
    ensures var m' := Enter(m, ts[i].info, dec);
      var trace' := trace + [Visit(ts[i].node, m', level)];
      && After(ts, i, c) == (if cb(trace') == Pop then NextPop(ts, i + 1) else i + 1)
      && PrunedBelow(ts, i, m, level, dec, c) ==
         if cb(trace') == Continue then Pruned(ts[i].kids, 0, m', level + 1, dec, c) else []
  {
    hide Enter, Pruned, Walk;
    var m' := Enter(m, ts[i].info, dec);
    var trace' := trace + [Visit(ts[i].node, m', level)];
    var run := Walk(ts, i, m, level, cb, dec, trace);
    FirstShown(ts, i, m, level, cb, dec, trace);
    SameAnswer(cb, trace', run.trace, |trace|);
    assert trace'[..|trace| + 1] == trace' && run.trace[|trace|] == trace'[|trace|];
    assert AnswerAt(cb, run.trace, |trace|) == cb(trace');
  }

  /** The nodes shown, each as often as it is. */
  ghost function ShownNodes(vs: seq<Visit>): multiset<Node> {
    if vs == [] then multiset{} else ShownNodes(vs[..|vs| - 1]) + multiset{vs[|vs| - 1].node}
  }

  /** The undeleted nodes from position `i` on. */
  ghost function Undeleted(ts: seq<Tree>, i: nat): multiset<Node>
    requires i <= |ts|
    decreases ts, |ts| - i
  {
    if i == |ts| then multiset{}
    else if ts[i].info.deleted then Undeleted(ts, i + 1)
    else multiset{ts[i].node} + Undeleted(ts[i].kids, 0) + Undeleted(ts, i + 1)
  }

  lemma NoNodes()
    ensures ShownNodes([]) == multiset{}
  {
  }

  lemma ShownNext(vs: seq<Visit>, v: Visit)
    ensures ShownNodes(vs + [v]) == ShownNodes(vs) + multiset{v.node}
  {
    assert (vs + [v])[..|vs|] == vs;
  }

  lemma {:induction false} UndeletedFrom(ts: seq<Tree>, i: nat, j: nat)
    requires i <= j <= |ts|
    ensures Undeleted(ts, j) <= Undeleted(ts, i)
    decreases j - i
  {
    hide Undeleted;
    if i < j {
      UndeletedFrom(ts, i + 1, j);
      UndeletedShrinks(ts, i);
    }
  }

  lemma UndeletedShrinks(ts: seq<Tree>, i: nat)
    requires i < |ts|
    ensures Undeleted(ts, i + 1) <= Undeleted(ts, i)
  {
  }

  /** Whatever the callback answers, no node is shown more often than it is in the hierarchy. */
  lemma {:induction false} WalkWithin(ts: seq<Tree>, i: nat, m: Matrix, level: nat, cb: Callback, dec: Decoder,
                                      trace: seq<Visit>)
    requires i <= |ts|
    ensures ShownNodes(Walk(ts, i, m, level, cb, dec, trace).trace) <= ShownNodes(trace) + Undeleted(ts, i)
    decreases ts, |ts| - i
  {
    hide Enter, ShownNodes;
    if i < |ts| {
      if ts[i].info.deleted {
        WalkWithin(ts, i + 1, m, level, cb, dec, trace);
      } else {
        var m' := Enter(m, ts[i].info, dec);
        var trace' := trace + [Visit(ts[i].node, m', level)];
        ShownNext(trace, Visit(ts[i].node, m', level));
        match cb(trace')
        case Exit =>
        case Continue =>
          WalkWithin(ts[i].kids, 0, m', level + 1, cb, dec, trace');
          WalkWithin(ts, i + 1, m', level, cb, dec, Walk(ts[i].kids, 0, m', level + 1, cb, dec, trace').trace);
        case Pop =>
          var j := NextPop(ts, i + 1);
          UndeletedFrom(ts, i + 1, j);
          WalkWithin(ts, j, m', level, cb, dec, trace');
        case _ =>
          WalkWithin(ts, i + 1, m', level, cb, dec, trace');
      }
    }
  }

  lemma {:induction false} UndeletedAt(ts: seq<Tree>, i: nat, x: Node) returns (p: Path)
    requires i <= |ts| && x in Undeleted(ts, i)
    ensures IsPath(ts, p) && i <= p[0] && TreeAt(ts, p).node == x
    decreases ts, |ts| - i
  {
    if !ts[i].info.deleted && x == ts[i].node {
      p := [i];
    } else if !ts[i].info.deleted && x in Undeleted(ts[i].kids, 0) {
      var q := UndeletedAt(ts[i].kids, 0, x);
      p := [i] + q;
      assert p[1..] == q;
    } else {
      p := UndeletedAt(ts, i + 1, x);
    }
  }

  /** A node is not in two of: here, below, further on. */
  lemma OnePlace(ts: seq<Tree>, i: nat, x: Node)
    requires i < |ts| && NodesApart(ts)
    ensures x in Undeleted(ts[i].kids, 0) ==> x != ts[i].node && x !in Undeleted(ts, i + 1)
    ensures x == ts[i].node ==> x !in Undeleted(ts, i + 1)
  {
    hide NodesApart, Undeleted;
    var here: Path := [i];
    assert TreeAt(ts, here) == ts[i];
    if x in Undeleted(ts, i + 1) {
      var p := UndeletedAt(ts, i + 1, x);
      if x == ts[i].node {
        SamePosition(ts, here, p);
      }
      if x in Undeleted(ts[i].kids, 0) {
        var q := UndeletedAt(ts[i].kids, 0, x);
        assert (here + q)[1..] == q;
        SamePosition(ts, here + q, p);
      }
    }
    if x in Undeleted(ts[i].kids, 0) && x == ts[i].node {
      var q := UndeletedAt(ts[i].kids, 0, x);
      assert (here + q)[1..] == q;
      SamePosition(ts, here + q, here);
    }
  }

  lemma UndeletedNext(ts: seq<Tree>, i: nat, x: Node)
    requires i < |ts|
    ensures Undeleted(ts, i)[x] ==
            (if ts[i].info.deleted then 0 else (if x == ts[i].node then 1 else 0) + Undeleted(ts[i].kids, 0)[x])
            + Undeleted(ts, i + 1)[x]
  {
  }

  lemma UndeletedEnd(ts: seq<Tree>)
    ensures Undeleted(ts, |ts|) == multiset{}
  {
  }

  /** Where no node is at two positions each is there at most once. */
  lemma {:induction false} UndeletedOnce(ts: seq<Tree>, i: nat, x: Node)
    requires i <= |ts| && NodesApart(ts)
    ensures Undeleted(ts, i)[x] <= 1
    decreases ts, |ts| - i
  {
    hide NodesApart, Undeleted;
    if i == |ts| {
      UndeletedEnd(ts);
    } else {
      UndeletedNext(ts, i, x);
      UndeletedOnce(ts, i + 1, x);
      ApartBelow(ts, i);
      UndeletedOnce(ts[i].kids, 0, x);
      OnePlace(ts, i, x);
    }
  }

  lemma {:induction false} ShownOften(vs: seq<Visit>, k: nat, l: nat)
    requires k <= l < |vs| && vs[k].node == vs[l].node
    ensures ShownNodes(vs)[vs[k].node] >= if k < l then 2 else 1
    decreases |vs|
  {
    var front := vs[..|vs| - 1];
    if l < |vs| - 1 {
      ShownOften(front, k, l);
    } else if k < l {
      ShownOften(front, k, k);
    }
  }

  lemma WalkOnce(ts: seq<Tree>, m: Matrix, level: nat, cb: Callback, dec: Decoder)
    requires NodesApart(ts)
    ensures NoneTwice(Walk(ts, 0, m, level, cb, dec, []).trace)
  {
    hide NodesApart, Walk, ShownNodes;
    var shown := Walk(ts, 0, m, level, cb, dec, []).trace;
    WalkWithin(ts, 0, m, level, cb, dec, []);
    NoNodes();
    forall k, l | 0 <= k < l < |shown|
      ensures shown[k].node != shown[l].node
    {
      if shown[k].node == shown[l].node {
        ShownOften(shown, k, l);
        UndeletedOnce(ts, 0, shown[k].node);
      }
    }
  }

  /**
   A walk over a hierarchy that is not ended shows, in order, just what is not deleted, not below a node answered with
   anything but CONTINUE, and not between one that was answered with POP and the next pop node.
   */
  lemma WalkShows(ts: seq<Tree>, m: Matrix, level: nat, cb: Callback, dec: Decoder)
    requires NodesApart(ts) && Walk(ts, 0, m, level, cb, dec, []).status == Running
    ensures var shown := Walk(ts, 0, m, level, cb, dec, []).trace;
      && shown == Pruned(ts, 0, m, level, dec, CutOf(cb, shown, true))
      && ShowsAllBut(ts, cb, shown, true)
  {
    hide NodesApart, Walk, Pruned, NoneTwice, ShowsAllBut, CutOf, Fits;
    var shown := Walk(ts, 0, m, level, cb, dec, []).trace;
    WalkOnce(ts, m, level, cb, dec);
    CutFits(cb, shown, true);
    WalkPruned(ts, 0, m, level, cb, dec, [], CutOf(cb, shown, true));
    PrunedShows(ts, m, level, dec, cb, shown, true);
  }
}
