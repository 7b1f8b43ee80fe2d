/**
 Hierarchies under construction: the nodes and child arrays made so far, in order of arrival, and the
 links between them.  The loader and the clone both grow one node at a time; when every number is
 sealed, the linked nodes are the trees of the numbering.
 */
module Linking {
  import opened Hierarchy
  import opened Numbering

  /** Number `i` is the node `all[i]`; `arrays[i]` holds its children, null as long as it has none. */
  datatype Ledger = Ledger(a: Arena, all: seq<Node>, arrays: seq<ChildArray?>, infos: seq<Info>)

  ghost predicate Distinct(w: Ledger) {
    && Filled(w.a, w.all, w.infos) && |w.arrays| == w.a.Count()
    && (forall i, j :: 0 <= i < j < |w.all| ==> w.all[i] != w.all[j])
    && (forall i, j :: 0 <= i < j < |w.arrays| && w.arrays[i] != null ==> w.arrays[i] != w.arrays[j])
  }

  function Pick(all: seq<Node>, ks: seq<nat>): (ns: seq<Node>)
    requires forall j :: 0 <= j < |ks| ==> ks[j] < |all|
    ensures |ns| == |ks| && forall j :: 0 <= j < |ks| ==> ns[j] == all[ks[j]]
  {
    seq(|ks|, j requires 0 <= j < |ks| => all[ks[j]])
  }

  /** What node and array of number `i` hold. */
  ghost predicate Recorded(w: Ledger, i: nat)
    requires Distinct(w) && i < w.a.Count()
    reads w.all[i], w.arrays[i]
  {
    assert Spans(w.a, i);
    && w.all[i].TheInfo() == w.infos[i]
    && (w.a.par[i] < 0 ==> w.all[i].parent == null)
    && (w.arrays[i] == null <==> w.a.kids[i] == [])
    && (w.arrays[i] != null ==> w.arrays[i].elems == Pick(w.all, w.a.kids[i]))
  }

  ghost predicate AllRecorded(w: Ledger)
    reads w.all, w.arrays
  {
    Distinct(w) && forall i :: 0 <= i < w.a.Count() ==> Recorded(w, i)
  }

  lemma RecordedAt(w: Ledger, i: nat)
    requires AllRecorded(w) && i < w.a.Count() && w.a.kids[i] != []
    ensures |w.arrays| == |w.all| == w.a.Count() && w.arrays[i] != null
    ensures |w.arrays[i].elems| == |w.a.kids[i]|
    ensures forall j :: 0 <= j < |w.a.kids[i]| ==>
            w.a.kids[i][j] < |w.all| && w.arrays[i].elems[j] == w.all[w.a.kids[i][j]]
  {
    SpansAt(w.a, i);
    assert Recorded(w, i);
    hide Filled;
  }

  /** The node of number `i` is linked to its array, and its children to it. */
  ghost predicate Sealed(w: Ledger, i: nat)
    requires Distinct(w) && i < w.a.Count()
    reads w.all
  {
    assert Spans(w.a, i);
    && w.all[i].children == w.arrays[i]
    && forall j :: 0 <= j < |w.a.kids[i]| ==> w.all[w.a.kids[i][j]].parent == w.all[i]
  }

  ghost predicate AllSealed(w: Ledger)
    reads w.all
  {
    Distinct(w) && forall i :: 0 <= i < w.a.Count() ==> Sealed(w, i)
  }

  ghost function NodeObjects(w: Ledger): set<object> {
    set n | n in w.all :: n as object
  }

  ghost function ArrayObjects(w: Ledger): set<object> {
    set c: ChildArray? | c in w.arrays && c != null :: c as object
  }

  ghost function Objects(w: Ledger): set<object> {
    NodeObjects(w) + ArrayObjects(w)
  }

  ghost function TreeOf(w: Ledger, i: nat): Tree
    requires Distinct(w) && i < w.a.Count()
  {
    Build(w.a, w.all, w.infos, i)
  }

  /** The nodes are linked as the numbering says. */
  lemma {:induction false} TreeLinked(w: Ledger, i: nat)
    requires AllRecorded(w) && AllSealed(w) && i < w.a.Count()
    ensures Linked(TreeOf(w, i), Objects(w)) && Parented(TreeOf(w, i), Objects(w))
    decreases w.a.Count() - i
  {
    assert Spans(w.a, i) && Recorded(w, i) && Sealed(w, i);
    var t := TreeOf(w, i);
    assert w.all[i] in w.all;
    hide Distinct, AllRecorded, AllSealed, Spans;
    forall j | 0 <= j < |t.kids|
      ensures Linked(t.kids[j], Objects(w)) && Parented(t.kids[j], Objects(w))
      ensures t.kids[j].node in Objects(w) && t.kids[j].node.parent == t.node
    {
      assert t.kids[j] == TreeOf(w, w.a.kids[i][j]);
      TreeLinked(w, w.a.kids[i][j]);
    }
    if t.kids != [] {
      assert w.arrays[i].elems == Nodes(t.kids);
      assert w.arrays[i] in w.arrays;
    }
    assert t.node in Objects(w);
    assert Linked(t, Objects(w));
  }

  /** The ledger with one more node, held by `target` below `path[q]`. */
  function Grown(w: Ledger, path: seq<nat>, q: nat, target: ChildArray, node: Node, info: Info): Ledger
    requires OnPath(w.a, path) && q < |path| && |w.arrays| == w.a.Count()
  {
    assert PathStep(w.a, path, q);
    PathBounds(w.a, path);
    Ledger(Added(w.a, path, q), w.all + [node], w.arrays[path[q] := target] + [null], w.infos + [info])
  }

  function GrownRoot(w: Ledger, node: Node, info: Info): Ledger {
    Ledger(AddedRoot(w.a), w.all + [node], w.arrays + [null], w.infos + [info])
  }

  /** The array that is to hold the next child of number `p`: its own, or a new one. */
  ghost predicate Target(w: Ledger, p: nat, target: ChildArray)
    requires p < |w.arrays|
    reads target
  {
    if w.arrays[p] == null then target !in w.arrays && target.elems == [] else target == w.arrays[p]
  }

  lemma GrownDistinct(w: Ledger, path: seq<nat>, q: nat, target: ChildArray, node: Node, info: Info)
    requires Distinct(w) && OnPath(w.a, path) && q < |path| && node !in w.all && !info.deleted
    requires path[q] < w.a.Count() && (w.arrays[path[q]] == target || target !in w.arrays)
    ensures Distinct(Grown(w, path, q, target, node, info))
  {
    PathBounds(w.a, path);
    AddedOk(w.a, path, q);
    hide EachSpans, OnPath;
  }

  /** The ledger after a new node below `path[q]`, or a new root if `q` is negative. */
  function Next(w: Ledger, path: seq<nat>, q: int, target: ChildArray, node: Node, info: Info): Ledger
    requires q < 0 || (OnPath(w.a, path) && q < |path| && |w.arrays| == w.a.Count())
  {
    if q < 0 then GrownRoot(w, node, info) else Grown(w, path, q, target, node, info)
  }

  lemma NodesOfMore(w: Ledger, w': Ledger, node: Node)
    requires w'.all == w.all + [node]
    ensures NodeObjects(w') == NodeObjects(w) + {node}
  {
    assert w'.all[|w.all|] == node;
    assert node in w'.all;
    assert node in NodeObjects(w');
    forall o: object
      ensures o in NodeObjects(w') <==> o in NodeObjects(w) + {node}
    {
      if o in NodeObjects(w') {
        var n: Node :| n in w'.all && o == n;
      }
      if o in NodeObjects(w) {
        var n: Node :| n in w.all && o == n;
        assert n in w'.all;
      }
    }
  }

  lemma NextObjects(w: Ledger, path: seq<nat>, q: int, target: ChildArray, node: Node, info: Info)
    requires q < 0 || (OnPath(w.a, path) && q < |path| && |w.arrays| == w.a.Count())
    requires |w.arrays| == w.a.Count()
    ensures var w' := Next(w, path, q, target, node, info);
      && w'.all == w.all + [node] && |w'.arrays| == w'.a.Count()
      && NodeObjects(w') == NodeObjects(w) + {node}
      && ArrayObjects(w') <= ArrayObjects(w) + {target}
      && (q < 0 ==> ArrayObjects(w') <= ArrayObjects(w))
  {
    var w' := Next(w, path, q, target, node, info);
    if q >= 0 {
      PathBounds(w.a, path);
    }
    assert w'.all == w.all + [node];
    NodesOfMore(w, w', node);
    forall c | c in w'.arrays && c != null
      ensures c in w.arrays || (q >= 0 && c == target)
    {
      if q >= 0 {
        PathBounds(w.a, path);
      }
      hide OnPath;
      var i :| 0 <= i < |w'.arrays| && w'.arrays[i] == c;
    }
  }

  lemma NextDistinct(w: Ledger, path: seq<nat>, q: int, target: ChildArray, node: Node, info: Info)
    requires Distinct(w) && node !in w.all && !info.deleted
    requires q < 0 || (OnPath(w.a, path) && q < |path| && path[q] < w.a.Count()
                       && (w.arrays[path[q]] == target || target !in w.arrays))
    ensures Distinct(Next(w, path, q, target, node, info))
  {
    if q < 0 {
      AddedRootOk(w.a);
    } else {
      GrownDistinct(w, path, q, target, node, info);
    }
  }

  /** What number `i` holds once the new node is in its array. */
  lemma NextRecorded(w: Ledger, path: seq<nat>, q: int, target: ChildArray, node: Node, info: Info, i: nat)
    requires Distinct(w) && (q < 0 || (OnPath(w.a, path) && q < |path| && path[q] < w.a.Count()))
    requires node.TheInfo() == info && (q < 0 ==> node.parent == null)
    requires Distinct(Next(w, path, q, target, node, info)) && i <= w.a.Count()
    requires i < w.a.Count() && (q < 0 || i != path[q]) ==> Recorded(w, i)
    requires q >= 0 ==>
      var p := path[q];
      && w.all[p].TheInfo() == w.infos[p] && (w.a.par[p] < 0 ==> w.all[p].parent == null)
      && (forall j :: 0 <= j < |w.a.kids[p]| ==> w.a.kids[p][j] < |w.all|)
      && target.elems == Pick(w.all, w.a.kids[p]) + [node]
    ensures i < Next(w, path, q, target, node, info).a.Count()
    ensures Recorded(Next(w, path, q, target, node, info), i)
  {
    if q >= 0 {
      PathBounds(w.a, path);
    }
    if i < w.a.Count() {
      SpansAt(w.a, i);
    }
    hide EachSpans, OnPath, Spans;
  }

  /** Putting a new node into the array of `path[q]`, or of the roots, keeps the records. */
  method Append(ghost w: Ledger, ghost path: seq<nat>, ghost q: int, target: ChildArray, node: Node, ghost info: Info)
    requires AllRecorded(w)
    requires if q < 0 then target !in w.arrays
             else OnPath(w.a, path) && q < |path| && path[q] < w.a.Count() && Target(w, path[q], target)
    requires node !in w.all && node.TheInfo() == info && !info.deleted && node.children == null &&
             (q < 0 ==> node.parent == null)
    modifies target
    ensures AllRecorded(Next(w, path, q, target, node, info))
    ensures target.elems == old(target.elems) + [node]
  {
    NextDistinct(w, path, q, target, node, info);
    ghost var w' := Next(w, path, q, target, node, info);
    assert w'.a.Count() == w.a.Count() + 1;
    if q >= 0 {
      SpansAt(w.a, path[q]);
      assert Recorded(w, path[q]);
      assert target.elems == Pick(w.all, w.a.kids[path[q]]);
    }
    hide Spans, Filled, OnPath, Next;
    target.elems := target.elems + [node];
    forall i | 0 <= i < w'.a.Count()
      ensures Recorded(w', i)
    {
      assert i < w.a.Count() ==> old(Recorded(w, i));
      NextRecorded(w, path, q, target, node, info, i);
    }
  }

  /* Which numbers are sealed. */

  /** The children of an open number may not be linked yet. */
  ghost predicate Unlinked(w: Ledger, i: nat)
    requires Distinct(w) && i < w.a.Count()
    reads w.all[i]
  {
    w.all[i].children == null || w.all[i].children == w.arrays[i]
  }

  /** All numbers are sealed but the open ones; nothing is said of number `but`. */
  ghost predicate SealedBut(w: Ledger, open: seq<nat>, but: int)
    reads w.all
  {
    Distinct(w) && forall i :: 0 <= i < w.a.Count() && i != but ==> if i in open then Unlinked(w, i) else Sealed(w, i)
  }

  /** A new node below `path[q]` concerns no other number. */
  lemma GrownSealed(w: Ledger, path: seq<nat>, q: nat, target: ChildArray, node: Node, info: Info, open: seq<nat>,
                    open': seq<nat>)
    requires OnPath(w.a, path) && q < |path| && path[q] < w.a.Count()
    requires SealedBut(w, open, path[q]) && Distinct(Grown(w, path, q, target, node, info)) && node.children == null
    requires forall i :: 0 <= i < w.a.Count() && i != path[q] ==> (i in open <==> i in open')
    requires w.a.Count() !in open'
    ensures SealedBut(Grown(w, path, q, target, node, info), open', path[q])
  {
    hide EachSpans;
    var w' := Grown(w, path, q, target, node, info);
    PathBounds(w.a, path);
    forall i | 0 <= i < w'.a.Count() && i != path[q]
      ensures if i in open' then Unlinked(w', i) else Sealed(w', i)
    {
      if i < w.a.Count() {
        assert if i in open then Unlinked(w, i) else Sealed(w, i);
        SpansAt(w.a, i);
      }
    }
  }

  lemma GrownUnlinked(w: Ledger, path: seq<nat>, q: nat, target: ChildArray, node: Node, info: Info, open: seq<nat>)
    requires OnPath(w.a, path) && q < |path| && path[q] < w.a.Count()
    requires SealedBut(w, open, -1) && w.arrays[path[q]] in {target, null} &&
             Distinct(Grown(w, path, q, target, node, info))
    ensures Unlinked(Grown(w, path, q, target, node, info), path[q])
  {
    hide EachSpans;
    PathBounds(w.a, path);
    assert if path[q] in open then Unlinked(w, path[q]) else Sealed(w, path[q]);
  }

  lemma GrownRootSealed(w: Ledger, node: Node, info: Info, open: seq<nat>)
    requires SealedBut(w, open, -1) && Distinct(GrownRoot(w, node, info)) && node.children == null
    requires open == []
    ensures SealedBut(GrownRoot(w, node, info), [], -1)
  {
    var w' := GrownRoot(w, node, info);
    forall i | 0 <= i < w'.a.Count()
      ensures Sealed(w', i)
    {
      if i < w.a.Count() {
        assert Sealed(w, i);
        SpansAt(w.a, i);
      }
    }
  }

  /** The nodes in the array of a node get that node for a parent. */
  method Adopt(parent: Node, children: ChildArray)
    modifies children.elems`parent
    ensures forall j :: 0 <= j < |children.elems| ==> children.elems[j].parent == parent
  {
    var i := 0;
    while i < |children.elems|
      invariant 0 <= i <= |children.elems|
      invariant forall j :: 0 <= j < i ==> children.elems[j].parent == parent
    {
      children.elems[i].parent := parent;
      i := i + 1;
    }
  }

  lemma SameNode(w: Ledger, m: nat, n: nat)
    requires Distinct(w) && m < |w.all| && n < |w.all| && w.all[m] == w.all[n]
    ensures m == n
  {
  }

  /** The children of `p` are the nodes whose parent number is `p`. */
  lemma KidNumber(w: Ledger, p: nat, n: nat)
    requires Distinct(w) && p < w.a.Count() && n < w.a.Count()
    requires (forall j :: 0 <= j < |w.a.kids[p]| ==> w.a.kids[p][j] < |w.all|) && w.all[n] in Pick(w.all, w.a.kids[p])
    ensures w.a.par[n] == p
  {
    var ns := Pick(w.all, w.a.kids[p]);
    var j :| 0 <= j < |ns| && ns[j] == w.all[n];
    SameNode(w, w.a.kids[p][j], n);
    SpansAt(w.a, p);
  }

  lemma NotAmong(w: Ledger, p: nat, ns: seq<Node>)
    requires Distinct(w) && p < w.a.Count()
    requires (forall j :: 0 <= j < |w.a.kids[p]| ==> w.a.kids[p][j] < |w.all|) && ns == Pick(w.all, w.a.kids[p])
    ensures |w.all| == |w.a.par|
    ensures forall n :: 0 <= n < |w.all| && w.a.par[n] != p ==> w.all[n] !in ns
    ensures forall n :: n in ns ==> n in NodeObjects(w)
  {
    assert |w.all| == |w.a.par| == w.a.Count();
    assert forall j :: 0 <= j < |ns| ==> ns[j] in w.all;
    assert forall n :: n in ns ==> n in NodeObjects(w);
    hide Distinct, NodeObjects, Pick;
    forall n | 0 <= n < |w.all| && w.all[n] in ns
      ensures w.a.par[n] == p
    {
      KidNumber(w, p, n);
    }
  }

  /** Linking a node to its array, and the nodes in the array back to it; all else stays as it was. */
  method LinkUp(ghost w: Ledger, ghost p: nat, parent: Node, children: ChildArray)
    requires AllRecorded(w) && p < w.a.Count() && w.all[p] == parent && w.arrays[p] == children
    modifies NodeObjects(w)
    ensures Sealed(w, p)
    ensures forall n :: 0 <= n < |w.all| ==> w.all[n].TheInfo() == old(w.all[n].TheInfo())
    ensures forall n :: 0 <= n < |w.all| && n != p ==> w.all[n].children == old(w.all[n].children)
    ensures forall n :: 0 <= n < |w.all| && w.a.par[n] != p ==> w.all[n].parent == old(w.all[n].parent)
  {
    SpansAt(w.a, p);
    assert Recorded(w, p);
    assert children.elems == Pick(w.all, w.a.kids[p]);
    NotAmong(w, p, children.elems);
    assert parent in w.all;
    hide Filled, AllRecorded, Recorded;
    parent.children := children;
    Adopt(parent, children);
  }

  method Close(ghost w: Ledger, ghost open: seq<nat>, ghost p: nat, parent: Node, children: ChildArray)
    requires AllRecorded(w) && p < w.a.Count() && SealedBut(w, open, p)
    requires w.all[p] == parent && w.arrays[p] == children
    modifies NodeObjects(w)
    ensures AllRecorded(w) && SealedBut(w, open, -1) && Sealed(w, p)
  {
    LinkUp(w, p, parent, children);
    hide Filled, EachSpans;
    forall n | 0 <= n < w.a.Count()
      ensures Recorded(w, n)
    {
      assert old(Recorded(w, n));
    }
    forall n | 0 <= n < w.a.Count() && n != p
      ensures if n in open then Unlinked(w, n) else Sealed(w, n)
    {
      assert old(if n in open then Unlinked(w, n) else Sealed(w, n));
      SpansAt(w.a, n);
    }
  }
}
