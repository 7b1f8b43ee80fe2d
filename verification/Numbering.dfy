/**
 Nodes numbered in the order they come, each with the numbers of its children.  Both the loader and
 the clone add every node below one of the nodes on the current path; this keeps the numbering a
 preorder: the descendants of a node are the numbers right after its own.
 */
module Numbering {
  import opened Hierarchy
  import opened Listing

  /** Children, parent (-1 for a root), one past the last descendant, and depth of each number. */
  datatype Arena = Arena(kids: seq<seq<nat>>, par: seq<int>, ends: seq<nat>, dep: seq<nat>) {
    function Count(): nat {
      |kids|
    }
  }

  const EmptyArena := Arena([], [], [], [])

  /** The first number after child `j` of `i` and what is below it. */
  function Until(a: Arena, i: nat, j: nat): nat
    requires i < |a.kids| == |a.ends| && j < |a.kids[i]|
  {
    if j + 1 < |a.kids[i]| then a.kids[i][j + 1] else a.ends[i]
  }

  /** The children of `i` follow it one after the other, each with its own descendants. */
  ghost predicate Spans(a: Arena, i: nat)
    requires Sized(a) && i < |a.kids|
  {
    var ks := a.kids[i];
    && i < a.ends[i] <= |a.kids|
    && (ks == [] ==> a.ends[i] == i + 1)
    && (ks != [] ==> ks[0] == i + 1)
    && forall j :: 0 <= j < |ks| ==>
         && i < ks[j] < |a.kids|
         && a.par[ks[j]] == i && a.dep[ks[j]] == a.dep[i] + 1
         && a.ends[ks[j]] == Until(a, i, j)
  }

  predicate Sized(a: Arena) {
    |a.kids| == |a.par| == |a.ends| == |a.dep|
  }

  ghost predicate EachSpans(a: Arena)
    requires Sized(a)
  {
    && (forall i :: 0 <= i < |a.kids| ==> Spans(a, i))
    && (forall i :: 0 <= i < |a.kids| && a.par[i] < 0 ==> a.dep[i] == 0)
  }

  ghost predicate Preordered(a: Arena) {
    Sized(a) && EachSpans(a)
  }

  /** A path from a root down last children: everything that comes next comes after all of them. */
  ghost predicate OnPath(a: Arena, path: seq<nat>) {
    && Preordered(a) && path != []
    && forall l :: 0 <= l < |path| ==> PathStep(a, path, l)
  }

  ghost predicate PathStep(a: Arena, path: seq<nat>, l: nat)
    requires Preordered(a) && l < |path|
  {
    && path[l] < a.Count() && a.ends[path[l]] == a.Count() && a.dep[path[l]] == l
    && if l == 0 then a.par[path[0]] == -1
       else path[l - 1] < a.Count() && a.par[path[l]] == path[l - 1] && a.kids[path[l - 1]] != []
            && path[l] == a.kids[path[l - 1]][|a.kids[path[l - 1]]| - 1]
  }

  lemma PathBounds(a: Arena, path: seq<nat>)
    requires OnPath(a, path)
    ensures forall l :: 0 <= l < |path| ==> path[l] < a.Count()
  {
    forall l | 0 <= l < |path|
      ensures path[l] < a.Count()
    {
      assert PathStep(a, path, l);
    }
  }

  /** A node of the path is the last child of the one before it. */
  lemma PathKid(a: Arena, path: seq<nat>, l: nat)
    requires OnPath(a, path) && l < |path|
    ensures path[l] < a.Count() == |a.kids|
    ensures l > 0 ==>
      var p := path[l - 1];
      && p < a.Count() && a.kids[p] != [] && a.kids[p][|a.kids[p]| - 1] == path[l]
  {
    assert PathStep(a, path, l);
  }

  /** A new node below `path[q]`. */
  function Added(a: Arena, path: seq<nat>, q: nat): (r: Arena)
    requires Sized(a) && q < |path|
    requires forall l :: 0 <= l < |path| ==> path[l] < |a.kids|
    ensures |r.kids| == |r.par| == |r.ends| == |r.dep| == a.Count() + 1
  {
    var k := a.Count();
    var p := path[q];
    Arena(a.kids[p := a.kids[p] + [k]] + [[]], a.par + [p],
          seq(k, i requires 0 <= i < k => if i in path[..q + 1] then k + 1 else a.ends[i]) + [k + 1],
          a.dep + [a.dep[p] + 1])
  }

  /** A new root. */
  function AddedRoot(a: Arena): Arena {
    Arena(a.kids + [[]], a.par + [-1], a.ends + [a.Count() + 1], a.dep + [0])
  }

  /** Parents and depths stay as they are when numbers are added. */
  ghost predicate Extends(a: Arena, r: Arena) {
    && |a.kids| == |a.par| == |a.ends| == |a.dep|
    && |r.kids| == |r.par| == |r.ends| == |r.dep| && a.Count() <= r.Count()
    && forall i :: 0 <= i < a.Count() ==> r.par[i] == a.par[i] && r.dep[i] == a.dep[i]
  }

  lemma SpansSame(a: Arena, r: Arena, i: nat)
    requires Extends(a, r) && i < a.Count() && Spans(a, i)
    requires r.kids[i] == a.kids[i] && r.ends[i] == a.ends[i]
    requires forall j :: 0 <= j < |a.kids[i]| ==> r.ends[a.kids[i][j]] == a.ends[a.kids[i][j]]
    ensures Spans(r, i)
  {
    var ks := r.kids[i];
    forall j | 0 <= j < |ks|
      ensures i < ks[j] < |r.kids| && r.par[ks[j]] == i && r.dep[ks[j]] == r.dep[i] + 1
      ensures r.ends[ks[j]] == Until(r, i, j)
    {
      assert a.kids[i][j] == ks[j];
    }
  }

  lemma SpansAt(a: Arena, i: nat)
    requires Preordered(a) && i < a.Count()
    ensures Spans(a, i)
  {
  }

  lemma AddedRootOk(a: Arena)
    requires Preordered(a)
    ensures Preordered(AddedRoot(a)) && OnPath(AddedRoot(a), [a.Count()])
  {
    var r := AddedRoot(a);
    forall i | 0 <= i < |r.kids|
      ensures Spans(r, i)
    {
      if i < a.Count() {
        SpansAt(a, i);
        SpansSame(a, r, i);
      }
    }
    assert PathStep(r, [a.Count()], 0);
  }

  lemma AddedOk(a: Arena, path: seq<nat>, q: nat)
    requires OnPath(a, path) && q < |path|
    requires forall l :: 0 <= l < |path| ==> path[l] < |a.kids|
    ensures var r := Added(a, path, q);
      && Preordered(r) && OnPath(r, path[..q + 1]) && OnPath(r, path[..q + 1] + [a.Count()])
  {
    var r := Added(a, path, q);
    var k := a.Count();
    assert PathStep(a, path, q);
    forall i | 0 <= i < |r.kids|
      ensures Spans(r, i)
    {
      if i < k {
        AddedSpans(a, path, q, i);
      }
    }
    hide Spans;
    var kept := path[..q + 1];
    forall l | 0 <= l < |kept|
      ensures PathStep(r, kept, l) && PathStep(r, kept + [k], l)
    {
      AddedStep(a, path, q, l);
    }
    assert PathStep(r, path[..q + 1] + [k], q + 1);
  }

  lemma AddedStep(a: Arena, path: seq<nat>, q: nat, l: nat)
    requires OnPath(a, path) && l <= q < |path|
    requires forall l :: 0 <= l < |path| ==> path[l] < |a.kids|
    requires Preordered(Added(a, path, q))
    ensures var r := Added(a, path, q);
      PathStep(r, path[..q + 1], l) && PathStep(r, path[..q + 1] + [a.Count()], l)
  {
    var r := Added(a, path, q);
    assert PathStep(a, path, l) && PathStep(a, path, q);
    assert path[..q + 1][l] == path[l];
    if l > 0 {
      assert PathStep(a, path, l - 1) && path[l - 1] != path[q];
      assert r.kids[path[l - 1]] == a.kids[path[l - 1]];
    }
  }

  /** The depths tell the children of the node to be added to from the nodes on the path. */
  lemma NotOnPath(a: Arena, path: seq<nat>, q: nat, j: nat)
    requires OnPath(a, path) && q < |path| && path[q] < a.Count() && j < |a.kids[path[q]]|
    ensures a.kids[path[q]][j] !in path[..q + 1]
  {
    var k := a.kids[path[q]][j];
    assert Spans(a, path[q]) && PathStep(a, path, q);
    forall l | 0 <= l < q + 1
      ensures path[l] != k
    {
      assert PathStep(a, path, l);
    }
  }

  lemma AddedSpans(a: Arena, path: seq<nat>, q: nat, i: nat)
    requires OnPath(a, path) && q < |path| && i < a.Count()
    requires forall l :: 0 <= l < |path| ==> path[l] < |a.kids|
    ensures Spans(Added(a, path, q), i)
  {
    SpansAt(a, i);
    if i == path[q] {
      AddedSpansParent(a, path, q);
    } else if i in path[..q + 1] {
      var l :| 0 <= l < |path[..q + 1]| && path[..q + 1][l] == i;
      assert path[..q + 1][l] == path[l];
      AddedSpansAbove(a, path, q, l);
    } else {
      AddedSpansAside(a, path, q, i);
    }
  }

  lemma AddedSpansParent(a: Arena, path: seq<nat>, q: nat)
    requires OnPath(a, path) && q < |path|
    requires forall l :: 0 <= l < |path| ==> path[l] < |a.kids|
    ensures Spans(Added(a, path, q), path[q])
  {
    hide EachSpans, PathStep;
    var r := Added(a, path, q);
    var p := path[q];
    var ks := a.kids[p];
    SpansOnPath(a, path, q);
    assert path[..q + 1][q] == p;
    forall j | 0 <= j < |ks|
      ensures r.ends[ks[j]] == a.ends[ks[j]] == Until(a, p, j)
    {
      NotOnPath(a, path, q, j);
    }
    var ks' := r.kids[p];
    assert ks' == ks + [a.Count()];
    forall j | 0 <= j < |ks'|
      ensures p < ks'[j] < |r.kids| && r.par[ks'[j]] == p && r.dep[ks'[j]] == r.dep[p] + 1
      ensures r.ends[ks'[j]] == Until(r, p, j)
    {
      if j < |ks| {
        assert ks'[j] == ks[j];
      }
    }
  }

  lemma SpansOnPath(a: Arena, path: seq<nat>, q: nat)
    requires OnPath(a, path) && q < |path|
    ensures |a.kids| == |a.par| == |a.ends| == |a.dep| && path[q] < a.Count()
    ensures Spans(a, path[q]) && a.ends[path[q]] == a.Count()
    ensures q + 1 < |path| ==> a.kids[path[q]] != [] && path[q + 1] == a.kids[path[q]][|a.kids[path[q]]| - 1]
  {
    assert PathStep(a, path, q);
    if q + 1 < |path| {
      assert PathStep(a, path, q + 1);
    }
  }

  /** A node on the path above the new one's parent: its last child is on the path as well. */
  lemma AddedSpansAbove(a: Arena, path: seq<nat>, q: nat, l: nat)
    requires OnPath(a, path) && l < q < |path| && path[l] != path[q]
    requires forall l :: 0 <= l < |path| ==> path[l] < |a.kids|
    ensures Spans(Added(a, path, q), path[l])
  {
    hide EachSpans, PathStep;
    var r := Added(a, path, q);
    var i := path[l];
    var ks := a.kids[i];
    SpansOnPath(a, path, l);
    assert path[..q + 1][l] == i && path[..q + 1][l + 1] == path[l + 1] == ks[|ks| - 1];
    forall j | 0 <= j < |ks|
      ensures i < ks[j] < |r.kids| && r.par[ks[j]] == i && r.dep[ks[j]] == r.dep[i] + 1
      ensures r.ends[ks[j]] == Until(r, i, j)
    {
      assert a.ends[ks[j]] == Until(a, i, j);
      if j < |ks| - 1 {
        KidAside(a, path, q, i, j);
      }
    }
  }

  lemma KidAside(a: Arena, path: seq<nat>, q: nat, i: nat, j: nat)
    requires OnPath(a, path) && q < |path| && i < a.Count() && j < |a.kids[i]|
    requires j < |a.kids[i]| - 1 || i !in path[..q + 1]
    ensures a.kids[i][j] !in path[..q + 1]
  {
    assert Spans(a, i);
    var k := a.kids[i][j];
    assert a.ends[k] == Until(a, i, j);
    forall l | 0 <= l < q + 1
      ensures path[l] != k
    {
      assert PathStep(a, path, l);
      if l > 0 {
        assert PathStep(a, path, l - 1) && path[l - 1] == path[..q + 1][l - 1];
      }
    }
  }

  lemma AddedSpansAside(a: Arena, path: seq<nat>, q: nat, i: nat)
    requires OnPath(a, path) && q < |path| && i < a.Count() && i !in path[..q + 1] && i != path[q]
    requires forall l :: 0 <= l < |path| ==> path[l] < |a.kids|
    ensures Spans(Added(a, path, q), i)
  {
    var r := Added(a, path, q);
    assert Spans(a, i);
    forall j | 0 <= j < |a.kids[i]|
      ensures r.ends[a.kids[i][j]] == a.ends[a.kids[i][j]]
    {
      KidAside(a, path, q, i, j);
    }
    SpansSame(a, r, i);
  }

  /* The trees of an arena. */

  /** A node and what it holds for every number. */
  ghost predicate Filled(a: Arena, all: seq<Node>, infos: seq<Info>) {
    Preordered(a) && |all| == |infos| == a.Count() && forall i :: 0 <= i < |infos| ==> !infos[i].deleted
  }

  ghost function Build(a: Arena, all: seq<Node>, infos: seq<Info>, i: nat): (t: Tree)
    requires Filled(a, all, infos) && i < a.Count()
    ensures t.node == all[i] && t.info == infos[i] && |t.kids| == |a.kids[i]|
    decreases a.Count() - i
  {
    assert Spans(a, i);
    Tree(all[i], infos[i], seq(|a.kids[i]|, j requires 0 <= j < |a.kids[i]| => Build(a, all, infos, a.kids[i][j])))
  }

  /** The number at a position below `i`. */
  ghost function NumberAt(a: Arena, i: nat, p: Path): nat
    requires Preordered(a) && i < a.Count()
    decreases |p|
  {
    assert Spans(a, i);
    if p == [] || p[0] >= |a.kids[i]| then i else NumberAt(a, a.kids[i][p[0]], p[1..])
  }

  /** A position of the tree that is built, and its number. */
  lemma {:induction false} BuiltAt(a: Arena, all: seq<Node>, infos: seq<Info>, i: nat, p: Path)
    requires Filled(a, all, infos) && i < a.Count() && IsPath(Build(a, all, infos, i).kids, p)
    ensures p[0] < |a.kids[i]| && a.kids[i][p[0]] < a.Count()
    ensures a.kids[i][p[0]] <= NumberAt(a, i, p) < a.ends[a.kids[i][p[0]]] <= a.Count()
    ensures TreeAt(Build(a, all, infos, i).kids, p).node == all[NumberAt(a, i, p)]
    decreases |p|
  {
    hide Spans;
    KidAt(a, i, p[0]);
    var k := a.kids[i][p[0]];
    assert Build(a, all, infos, i).kids[p[0]] == Build(a, all, infos, k);
    if |p| == 1 {
      NumberHere(a, k, p[1..]);
    } else {
      BuiltAt(a, all, infos, k, p[1..]);
      KidEnds(a, k, p[1]);
    }
  }

  lemma NumberHere(a: Arena, i: nat, p: Path)
    requires Preordered(a) && i < a.Count() && p == []
    ensures NumberAt(a, i, p) == i
  {
  }

  lemma {:induction false} KidEnds(a: Arena, i: nat, j: nat)
    requires Preordered(a) && i < a.Count() && j < |a.kids[i]|
    ensures i < a.kids[i][j] < a.Count() && a.ends[a.kids[i][j]] <= a.ends[i] <= a.Count()
    decreases |a.kids[i]| - j
  {
    hide Spans;
    KidAt(a, i, j);
    if j + 1 < |a.kids[i]| {
      KidEnds(a, i, j + 1);
      KidAt(a, i, j + 1);
    }
  }

  /** The descendants of a child come before the next children. */
  lemma {:induction false} KidsApart(a: Arena, i: nat, j: nat, k: nat)
    requires Preordered(a) && i < a.Count() && j < k < |a.kids[i]|
    ensures a.kids[i][j] < a.Count() && a.ends[a.kids[i][j]] <= a.kids[i][k]
    decreases k - j
  {
    hide Spans;
    KidAt(a, i, j);
    if j + 1 < k {
      KidsApart(a, i, j + 1, k);
      KidAt(a, i, j + 1);
    }
  }

  /** No number is at two positions. */
  lemma {:induction false} NumberOnce(a: Arena, all: seq<Node>, infos: seq<Info>, i: nat, p: Path, q: Path)
    requires Filled(a, all, infos) && i < a.Count()
    requires var kids := Build(a, all, infos, i).kids; IsPath(kids, p) && IsPath(kids, q)
    requires NumberAt(a, i, p) == NumberAt(a, i, q)
    ensures p == q
    decreases |p|
  {
    hide Spans;
    BuiltAt(a, all, infos, i, p);
    BuiltAt(a, all, infos, i, q);
    if p[0] < q[0] {
      KidsApart(a, i, p[0], q[0]);
    } else if q[0] < p[0] {
      KidsApart(a, i, q[0], p[0]);
    }
    var k := a.kids[i][p[0]];
    KidAt(a, i, p[0]);
    assert Build(a, all, infos, i).kids[p[0]] == Build(a, all, infos, k);
    NumberBelow(a, all, infos, k, p[1..]);
    NumberBelow(a, all, infos, k, q[1..]);
    if |p| > 1 && |q| > 1 {
      NumberOnce(a, all, infos, k, p[1..], q[1..]);
      assert p == [p[0]] + p[1..] && q == [q[0]] + q[1..];
    }
  }

  lemma NumberBelow(a: Arena, all: seq<Node>, infos: seq<Info>, i: nat, p: Path)
    requires Filled(a, all, infos) && i < a.Count() && (p == [] || IsPath(Build(a, all, infos, i).kids, p))
    ensures NumberAt(a, i, p) < a.Count() && TreeBelow(a, all, infos, i, p) == all[NumberAt(a, i, p)]
    ensures NumberAt(a, i, p) == i <==> p == []
  {
    hide Spans;
    if p == [] {
      NumberHere(a, i, p);
    } else {
      BuiltAt(a, all, infos, i, p);
      KidAt(a, i, p[0]);
    }
  }

  ghost function TreeBelow(a: Arena, all: seq<Node>, infos: seq<Info>, i: nat, p: Path): Node
    requires Filled(a, all, infos) && i < a.Count() && (p == [] || IsPath(Build(a, all, infos, i).kids, p))
  {
    if p == [] then all[i] else TreeAt(Build(a, all, infos, i).kids, p).node
  }

  /** Nodes that are different for different numbers are different at different positions. */
  lemma BuiltApart(a: Arena, all: seq<Node>, infos: seq<Info>, i: nat)
    requires Filled(a, all, infos) && i < a.Count()
    requires forall m, n :: 0 <= m < n < |all| ==> all[m] != all[n]
    ensures NodesApart([Build(a, all, infos, i)])
  {
    hide Spans;
    var t := Build(a, all, infos, i);
    forall p: Path, q: Path | IsPath([t], p) && IsPath([t], q) && TreeAt([t], p).node == TreeAt([t], q).node
      ensures p == q
    {
      BuiltTop(a, all, infos, i, p);
      BuiltTop(a, all, infos, i, q);
      if |p| > 1 && |q| > 1 {
        NumberOnce(a, all, infos, i, p[1..], q[1..]);
        assert p == [p[0]] + p[1..] && q == [q[0]] + q[1..];
      }
    }
  }

  lemma BuiltTop(a: Arena, all: seq<Node>, infos: seq<Info>, i: nat, p: Path)
    requires Filled(a, all, infos) && i < a.Count() && IsPath([Build(a, all, infos, i)], p)
    ensures p[0] == 0 && (|p| > 1 ==> IsPath(Build(a, all, infos, i).kids, p[1..]))
    ensures NumberAt(a, i, p[1..]) < a.Count() &&
            TreeAt([Build(a, all, infos, i)], p).node == all[NumberAt(a, i, p[1..])]
    ensures NumberAt(a, i, p[1..]) == i <==> |p| == 1
  {
    hide Spans;
    assert [Build(a, all, infos, i)][p[0]] == Build(a, all, infos, i);
    NumberBelow(a, all, infos, i, p[1..]);
  }

  function Entries(a: Arena, all: seq<Node>, infos: seq<Info>, lo: nat, hi: nat): (es: seq<Entry>)
    requires |all| == |infos| == |a.dep| && lo <= hi <= |all|
    ensures |es| == hi - lo
  {
    seq(hi - lo, k requires 0 <= k < hi - lo => Entry(all[lo + k], infos[lo + k], a.dep[lo + k]))
  }

  lemma EntriesSum(a: Arena, all: seq<Node>, infos: seq<Info>, lo: nat, mid: nat, hi: nat)
    requires |all| == |infos| == |a.dep| && lo <= mid <= hi <= |all|
    ensures Entries(a, all, infos, lo, mid) + Entries(a, all, infos, mid, hi) == Entries(a, all, infos, lo, hi)
  {
  }

  /** The listing of a subtree is the run of numbers from its root to its end. */
  lemma {:induction false} BuildLists(a: Arena, all: seq<Node>, infos: seq<Info>, i: nat)
    requires Filled(a, all, infos) && i < a.Count()
    ensures i < a.ends[i] <= a.Count()
    ensures List([Build(a, all, infos, i)], 0, a.dep[i]) == Entries(a, all, infos, i, a.ends[i])
    decreases a.Count() - i, 1, 0
  {
    hide Spans, EachSpans, KidsListed, List, Entries, Build;
    KidsList(a, all, infos, i, 0);
    KidsFirst(a, all, infos, i);
    ListOne(Build(a, all, infos, i), a.dep[i]);
    EntriesOne(a, all, infos, i);
    EntriesSum(a, all, infos, i, i + 1, a.ends[i]);
  }

  lemma EntriesOne(a: Arena, all: seq<Node>, infos: seq<Info>, i: nat)
    requires |all| == |infos| == |a.dep| && i < |all|
    ensures Entries(a, all, infos, i, i + 1) == [Entry(all[i], infos[i], a.dep[i])]
  {
  }

  lemma {:induction false} KidsList(a: Arena, all: seq<Node>, infos: seq<Info>, i: nat, j: nat)
    requires Filled(a, all, infos) && i < a.Count() && j <= |a.kids[i]|
    ensures KidsListed(a, all, infos, i, j)
    decreases a.Count() - i, 0, |a.kids[i]| - j
  {
    hide Spans, KidsListed, List, Entries, Build, EachSpans;
    if j == |a.kids[i]| {
      KidsEnd(a, all, infos, i);
    } else {
      KidAt(a, i, j);
      BuildLists(a, all, infos, a.kids[i][j]);
      KidsList(a, all, infos, i, j + 1);
      KidsJoin(a, all, infos, i, j);
    }
  }

  lemma KidAt(a: Arena, i: nat, j: nat)
    requires Preordered(a) && i < a.Count() && j < |a.kids[i]|
    ensures var k := a.kids[i][j];
      && i < k < a.Count() && a.dep[k] == a.dep[i] + 1 && k < a.ends[k] == Until(a, i, j) <= a.Count()
  {
    SpansAt(a, i);
    SpansAt(a, a.kids[i][j]);
  }

  /** The listing from child `j` of `i` on. */
  ghost predicate KidsListed(a: Arena, all: seq<Node>, infos: seq<Info>, i: nat, j: nat)
    requires Filled(a, all, infos) && i < a.Count() && j <= |a.kids[i]|
  {
    var lo := if j < |a.kids[i]| then a.kids[i][j] else a.ends[i];
    && lo <= a.ends[i] <= a.Count()
    && List(Build(a, all, infos, i).kids, j, a.dep[i] + 1) == Entries(a, all, infos, lo, a.ends[i])
  }

  lemma KidsFirst(a: Arena, all: seq<Node>, infos: seq<Info>, i: nat)
    requires Filled(a, all, infos) && i < a.Count() && KidsListed(a, all, infos, i, 0)
    ensures i + 1 <= a.ends[i] <= a.Count()
    ensures List(Build(a, all, infos, i).kids, 0, a.dep[i] + 1) == Entries(a, all, infos, i + 1, a.ends[i])
  {
    hide List, Entries;
    SpansAt(a, i);
  }

  lemma KidsEnd(a: Arena, all: seq<Node>, infos: seq<Info>, i: nat)
    requires Filled(a, all, infos) && i < a.Count()
    ensures KidsListed(a, all, infos, i, |a.kids[i]|)
  {
    SpansAt(a, i);
  }

  lemma KidsJoin(a: Arena, all: seq<Node>, infos: seq<Info>, i: nat, j: nat)
    requires Filled(a, all, infos) && i < a.Count() && j < |a.kids[i]| && i < a.kids[i][j] < a.Count()
    requires var k := a.kids[i][j];
      && k < a.ends[k] == Until(a, i, j) <= a.Count()
      && List([Build(a, all, infos, k)], 0, a.dep[i] + 1) == Entries(a, all, infos, k, a.ends[k])
    requires KidsListed(a, all, infos, i, j + 1)
    ensures KidsListed(a, all, infos, i, j)
  {
    hide List, EachSpans, Entries;
    var k := a.kids[i][j];
    var kids := Build(a, all, infos, i).kids;
    assert kids[j] == Build(a, all, infos, k);
    ListParts(kids, j, a.dep[i] + 1);
    EntriesSum(a, all, infos, k, a.ends[k], a.ends[i]);
  }

  lemma ListParts(ts: seq<Tree>, j: nat, level: nat)
    requires j < |ts|
    ensures List(ts, j, level) == List([ts[j]], 0, level) + List(ts, j + 1, level)
  {
    assert List([ts[j]], 1, level) == [];
    assert [ts[j]][0] == ts[j];
  }
}
