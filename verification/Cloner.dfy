/**
 prf_model_clone: an in-order traversal whose callback copies each node and hangs the copy below the
 last copy made one level up, on a stack of copies that is cut back to the level of each visit.
 */
module Cloner {
  import opened Codecs
  import opened State
  import opened Hierarchy
  import opened InOrder
  import opened Listing
  import opened Numbering
  import opened Linking
  import opened Saver

  const HEADER := 1

  /** Depths of a listing: it starts at its top level and goes down one level at a time. */
  ghost predicate Descends(es: seq<Entry>, level: nat) {
    && (es != [] ==> es[0].level == level)
    && forall k :: 0 <= k < |es| ==> level <= es[k].level && (k > 0 ==> es[k].level <= es[k - 1].level + 1)
  }

  lemma DescendsSum(a: seq<Entry>, b: seq<Entry>, level: nat)
    requires Descends(a, level) && Descends(b, level)
    ensures Descends(a + b, level)
  {
    var c := a + b;
    forall k | 0 <= k < |c|
      ensures level <= c[k].level && (k > 0 ==> c[k].level <= c[k - 1].level + 1)
    {
      if k < |a| {
        assert c[k] == a[k] && (k > 0 ==> c[k - 1] == a[k - 1]);
      } else if k == |a| {
        assert c[k] == b[0] && (k > 0 ==> c[k - 1] == a[k - 1]);
      } else {
        assert c[k] == b[k - |a|] && c[k - 1] == b[k - 1 - |a|];
      }
    }
  }

  lemma DescendsBelow(e: Entry, b: seq<Entry>)
    requires Descends(b, e.level + 1)
    ensures Descends([e] + b, e.level)
  {
  }

  lemma {:induction false} ListDescends(ts: seq<Tree>, i: nat, level: nat)
    requires i <= |ts|
    ensures Descends(List(ts, i, level), level)
    decreases ts, |ts| - i
  {
    hide Descends;
    if i == |ts| {
      NoneDescend(level);
    } else {
      ListDescends(ts, i + 1, level);
      if !ts[i].info.deleted {
        var e := Entry(ts[i].node, ts[i].info, level);
        ListDescends(ts[i].kids, 0, level + 1);
        DescendsBelow(e, List(ts[i].kids, 0, level + 1));
        DescendsSum([e] + List(ts[i].kids, 0, level + 1), List(ts, i + 1, level), level);
      }
    }
  }

  lemma NoneDescend(level: nat)
    ensures Descends([], level)
  {
  }

  /** prf_node_clone; but a vertex palette is copied as far as its own length says. */
  method CloneNode(node: Node) returns (copy: Node)
    requires node.length >= 4 && (node.opcode != VERTEX_PALETTE ==> |node.data| == node.length - 4)
    ensures fresh(copy) && copy.TheInfo() == Info(node.TheRecord(), false)
    ensures copy.children == null && copy.parent == null
  {
    var data := if node.opcode == VERTEX_PALETTE then node.data else node.data[..node.length - 4];
    copy := new Node(Record(node.opcode, node.length, data));
  }

  /** What the clone demands of the nodes it visits: one header, at the root, and lengths that are not too short. */
  ghost predicate Clonable(es: seq<Entry>) {
    forall k :: 0 <= k < |es| ==>
      && (es[k].info.record.opcode == HEADER <==> k == 0)
      && es[k].info.record.length >= 4
      && (es[k].info.record.opcode != VERTEX_PALETTE ==> |es[k].info.record.data| == es[k].info.record.length - 4)
  }

  /** The numbering of the copies follows the listing; the path leads to the last copy. */
  ghost predicate Numbered(a: Arena, path: seq<nat>, infos: seq<Info>, es: seq<Entry>) {
    && a.Count() <= |es| && |infos| == |a.dep| == a.Count()
    && (forall k :: 0 <= k < a.Count() ==> infos[k] == Info(es[k].info.record, false) && a.dep[k] == es[k].level)
    && if a.Count() == 0 then path == [] && Preordered(a)
       else OnPath(a, path) && path[0] == 0 && |path| == es[a.Count() - 1].level + 1
  }

  /** One more entry: cut the path back to the level above, and go on to the new copy. */
  function Onward(path: seq<nat>, level: nat, n: nat): seq<nat>
    requires level <= |path|
  {
    path[..level] + [n]
  }

  lemma NumberedNext(a: Arena, path: seq<nat>, infos: seq<Info>, es: seq<Entry>)
    requires Numbered(a, path, infos, es) && Descends(es, 0) && a.Count() < |es|
    requires a.Count() > 0 ==> es[a.Count()].level > 0
    ensures var n := a.Count();
      var level, infos' := es[n].level, infos + [Info(es[n].info.record, false)];
      && level <= |path|
      && (if n == 0 then path == [] && level == 0 && Numbered(AddedRoot(a), [0], infos', es)
          else OnPath(a, path) && (forall l :: 0 <= l < |path| ==> path[l] < n)
               && Numbered(Added(a, path, level - 1), Onward(path, level, n), infos', es))
  {
    hide Spans;
    var n := a.Count();
    if n == 0 {
      AddedRootOk(a);
    } else {
      PathBounds(a, path);
      AddedOk(a, path, es[n].level - 1);
      AddedDepth(a, path, es[n].level - 1);
    }
  }

  lemma AddedDepth(a: Arena, path: seq<nat>, q: nat)
    requires OnPath(a, path) && q < |path|
    requires forall l :: 0 <= l < |path| ==> path[l] < |a.kids|
    ensures |Added(a, path, q).dep| == a.Count() + 1 && Added(a, path, q).dep[a.Count()] == q + 1
    ensures forall k :: 0 <= k < a.Count() ==> Added(a, path, q).dep[k] == a.dep[k]
  {
    assert PathStep(a, path, q);
  }

  /** The stack holds the copies on the path. */
  ghost predicate OnStack(all: seq<Node>, path: seq<nat>, stack: seq<Node>) {
    |stack| == |path| && forall l :: 0 <= l < |path| ==> path[l] < |all| && stack[l] == all[path[l]]
  }

  lemma OnStackNext(all: seq<Node>, path: seq<nat>, stack: seq<Node>, level: nat, copy: Node)
    requires OnStack(all, path, stack) && level <= |path|
    ensures OnStack(all + [copy], Onward(path, level, |all|), stack[..level] + [copy])
  {
  }

  /** The copies of the first nodes of a listing, with the stack. */
  ghost predicate Copied(w: Ledger, path: seq<nat>, es: seq<Entry>, header: Node?, stack: seq<Node>)
    reads w.all, w.arrays
  {
    && AllRecorded(w) && SealedBut(w, [], -1) && Numbered(w.a, path, w.infos, es) && OnStack(w.all, path, stack)
    && |w.all| == w.a.Count() && (if |w.all| == 0 then header == null else header == w.all[0])
  }

  /** The children of number `p` point back to it. */
  ghost predicate Owned(w: Ledger, p: nat)
    requires Distinct(w) && p < w.a.Count()
    reads w.all
  {
    assert Spans(w.a, p);
    forall j :: 0 <= j < |w.a.kids[p]| ==> w.all[w.a.kids[p][j]].parent == w.all[p]
  }

  /** The array of a copy's children, made for its first child. */
  method ChildrenOf(parent: Node, ghost w: Ledger, ghost p: nat) returns (target: ChildArray)
    requires AllRecorded(w) && SealedBut(w, [], -1) && p < w.a.Count() && parent == w.all[p]
    modifies parent`children
    ensures AllRecorded(w) && SealedBut(w, [], p) && Distinct(w) && Owned(w, p) && |w.arrays| == |w.all| == w.a.Count()
    ensures parent.children == target && Target(w, p, target)
    ensures target in ArrayObjects(w) || fresh(target)
  {
    SpansAt(w.a, p);
    assert Sealed(w, p) && w.arrays[p] in w.arrays;
    if parent.children == null {
      parent.children := new ChildArray([]);
    }
    target := parent.children;
    forall i | 0 <= i < w.a.Count()
      ensures Recorded(w, i)
    {
      assert old(Recorded(w, i));
    }
    forall i | 0 <= i < w.a.Count() && i != p
      ensures Sealed(w, i)
    {
      assert old(Sealed(w, i));
      SpansAt(w.a, i);
    }
  }

  /** With its new last child linked to it, the parent is sealed again. */
  lemma HungSealed(w: Ledger, path: seq<nat>, q: nat, target: ChildArray, copy: Node, info: Info)
    requires OnPath(w.a, path) && q < |path| && path[q] < w.a.Count() && Distinct(w) && Owned(w, path[q])
    requires Distinct(Grown(w, path, q, target, copy, info)) &&
             SealedBut(Grown(w, path, q, target, copy, info), [], path[q])
    requires w.all[path[q]].children == target && copy.parent == w.all[path[q]]
    ensures SealedBut(Grown(w, path, q, target, copy, info), [], -1)
  {
    hide EachSpans;
    var w' := Grown(w, path, q, target, copy, info);
    var p := path[q];
    PathBounds(w.a, path);
    SpansAt(w.a, p);
    assert w'.a.kids[p] == w.a.kids[p] + [w.a.Count()];
    assert Sealed(w', p);
  }

  /** Hanging a copy below a node that was copied before. */
  method Hang(parent: Node, copy: Node, ghost w: Ledger, ghost path: seq<nat>, ghost q: nat, ghost info: Info)
    returns (ghost w': Ledger)
    requires AllRecorded(w) && SealedBut(w, [], -1) && OnPath(w.a, path) && q < |path|
    requires path[q] < w.a.Count() == |w.all| && parent == w.all[path[q]] && parent in NodeObjects(w)
    requires copy !in w.all && copy.TheInfo() == info && !info.deleted && copy.children == null
    modifies Objects(w), copy
    ensures AllRecorded(w') && SealedBut(w', [], -1)
    ensures Sized(w.a) && (forall l :: 0 <= l < |path| ==> path[l] < w.a.Count())
    ensures w'.a == Added(w.a, path, q) && w'.all == w.all + [copy] && w'.infos == w.infos + [info]
    ensures fresh(Objects(w') - Objects(w) - {copy})
  {
    hide SealedBut, Recorded, Owned, EachSpans, PathStep, Added, NodeObjects, ArrayObjects, Target;
    PathBounds(w.a, path);
    copy.parent := parent;
    var target := ChildrenOf(parent, w, path[q]);
    Append(w, path, q, target, copy, info);
    w' := Grown(w, path, q, target, copy, info);
    NextObjects(w, path, q, target, copy, info);
    GrownSealed(w, path, q, target, copy, info, [], []);
    HungSealed(w, path, q, target, copy, info);
  }

  /** The first copy. */
  lemma FirstCopy(w: Ledger, copy: Node, info: Info)
    requires AllRecorded(w) && w.a.Count() == 0 && !info.deleted
    requires copy.TheInfo() == info && copy.children == null && copy.parent == null
    ensures AllRecorded(GrownRoot(w, copy, info)) && SealedBut(GrownRoot(w, copy, info), [], -1)
    ensures Objects(GrownRoot(w, copy, info)) <= Objects(w) + {copy}
  {
    AddedRootOk(w.a);
    var w' := GrownRoot(w, copy, info);
    assert Distinct(w');
    assert Recorded(w', 0) && Sealed(w', 0);
  }

  /** clone_cb. */
  method CloneVisit(node: Node, level: nat, header: Node?, stack: seq<Node>,
                    ghost w: Ledger, ghost path: seq<nat>, ghost es: seq<Entry>)
    returns (header': Node?, stack': seq<Node>, ghost w': Ledger, ghost path': seq<nat>)
    requires Copied(w, path, es, header, stack) && Clonable(es) && Descends(es, 0) && w.a.Count() < |es|
    requires node.TheInfo() == es[w.a.Count()].info && level == es[w.a.Count()].level && (w.a.Count() > 0 ==> level > 0)
    modifies Objects(w)
    ensures Copied(w', path', es, header', stack') && w'.a.Count() == w.a.Count() + 1
    ensures fresh(Objects(w') - Objects(w))
  {
    hide AllRecorded, SealedBut, Numbered, Descends, OnPath, Added;
    ghost var n := w.a.Count();
    ghost var info := Info(es[n].info.record, false);
    NumberedNext(w.a, path, w.infos, es);
    var copy := CloneNode(node);
    OnStackNext(w.all, path, stack, level, copy);
    if node.opcode == HEADER {
      header' := copy;
      stack' := stack + [copy];
      w', path' := GrownRoot(w, copy, info), [n];
      FirstCopy(w, copy, info);
    } else {
      header' := header;
      assert stack[level - 1] in w.all;
      w' := Hang(stack[level - 1], copy, w, path, level - 1, info);
      stack' := stack[..level] + [copy];
      path' := Onward(path, level, n);
    }
  }

  /** All copies made: the ledger is one tree, of the shape of the listing. */
  lemma AllCopied(w: Ledger, path: seq<nat>, es: seq<Entry>, header: Node?, stack: seq<Node>)
    requires Copied(w, path, es, header, stack) && es != [] && w.a.Count() == |es|
    ensures Distinct(w) && header == w.all[0] == TreeOf(w, 0).node && header.parent == null
    ensures Linked(TreeOf(w, 0), Objects(w)) && Parented(TreeOf(w, 0), Objects(w)) && NodesApart([TreeOf(w, 0)])
    ensures LinesOf(List([TreeOf(w, 0)], 0, 0)) == LinesOf(es)
  {
    hide Spans, Linked, Parented, Objects, Recorded, Sealed, Build, NodesApart;
    TreeLinked(w, 0);
    BuiltApart(w.a, w.all, w.infos, 0);
    BuildLists(w.a, w.all, w.infos, 0);
    RootEnds(w.a, path);
    RootHasNoParent(w);
    var all := List([TreeOf(w, 0)], 0, 0);
    forall k | 0 <= k < |es|
      ensures LinesOf(all)[k] == LinesOf(es)[k]
    {
      assert all[k] == Entry(w.all[0 + k], w.infos[0 + k], w.a.dep[0 + k]);
    }
  }

  lemma RootEnds(a: Arena, path: seq<nat>)
    requires OnPath(a, path) && path[0] == 0
    ensures a.Count() > 0 && a.ends[0] == a.Count() && a.dep[0] == 0 && a.par[0] < 0
  {
    assert PathStep(a, path, 0);
  }

  lemma RootHasNoParent(w: Ledger)
    requires AllRecorded(w) && w.a.Count() > 0 && w.a.par[0] < 0
    ensures w.all[0].parent == null
  {
    assert Recorded(w, 0);
  }

  /**
   The clone of a model is its hierarchy without the deleted parts, made of new nodes, one for each
   position, that hold the same and are linked both ways.  There is none if the root itself is deleted.
   */
  method Clone(root: Node, dec: Decoder, ghost t: Tree, ghost S: set<object>)
    returns (header: Node?, ghost us: seq<Tree>, ghost U: set<object>)
    requires t.node == root && Linked(t, S) && Clonable(List([t], 0, 0))
    ensures header == null <==> t.info.deleted
    ensures !t.info.deleted ==>
      && |us| == 1 && header == us[0].node && fresh(U) && Linked(us[0], U) && Parented(us[0], U) &&
         header.parent == null
      && ShapesOf(us, 0) == ShapesOf([t], 0) && NodesApart(us)
  {
    hide NodesApart, Linked, Parented, List, Preorder, Walk, Clonable, Descends, Copied, Enter, ShapesOf;
    var state := new TraversalState();
    var cb: Callback := h => Continue;
    ghost var es := List([t], 0, 0);
    WalkAll([t], 0, state.Top(), 0, cb, dec, []);
    PreorderShowsList([t], 0, state.Top(), 0, dec);
    ListHeld([t], 0, 0, S);
    ListDescends([t], 0, 0);
    RootFirst(t);
    var trace, traverse := TraverseIo(root, state, cb, dec, t, S);
    header, us, U := null, [], {};
    var stack: seq<Node>, k := [], 0;
    ghost var w, path := Ledger(EmptyArena, [], [], []), [];
    NoneCopied(es);
    while k < |trace|
      invariant k <= |trace| == |es| && Held(es, S)
      invariant Copied(w, path, es, header, stack) && w.a.Count() == k
      invariant fresh(Objects(w)) && (k == 0 ==> header == null)
    {
      header, stack, w, path := CloneVisit(trace[k].node, trace[k].level, header, stack, w, path, es);
      k := k + 1;
    }
    if !t.info.deleted {
      AllCopied(w, path, es, header, stack);
      us, U := [TreeOf(w, 0)], Objects(w);
      SameShapes(us[0], t);
      assert us == [us[0]];
    }
  }

  lemma NoneCopied(es: seq<Entry>)
    ensures Copied(Ledger(EmptyArena, [], [], []), [], es, null, [])
    ensures Objects(Ledger(EmptyArena, [], [], [])) == {}
  {
  }

  lemma RootFirst(t: Tree)
    ensures if t.info.deleted then List([t], 0, 0) == [] else List([t], 0, 0) != []
    ensures forall k :: 0 < k < |List([t], 0, 0)| ==> List([t], 0, 0)[k].level > 0
  {
    hide Descends;
    assert List([t], 1, 0) == [];
    ListDescends(t.kids, 0, 1);
    AtLeast(List(t.kids, 0, 1), 1);
  }

  lemma AtLeast(es: seq<Entry>, level: nat)
    requires Descends(es, level)
    ensures forall k :: 0 <= k < |es| ==> es[k].level >= level
  {
  }

  lemma SameShapes(u: Tree, t: Tree)
    requires LinesOf(List([u], 0, 0)) == LinesOf(List([t], 0, 0))
    ensures ShapesOf([u], 0) == ShapesOf([t], 0)
  {
    hide List, ShapesOf, Lines;
    ListIsLines([u], 0, 0);
    ListIsLines([t], 0, 0);
    LinesInjective(ShapesOf([u], 0), ShapesOf([t], 0), 0);
  }
}
