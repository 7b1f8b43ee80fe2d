/**
 prf_model_load_with_callback: a file of records becomes a hierarchy of linked nodes, on an explicit
 stack of child arrays.
 */
module Loader {
  import opened Bytes
  import opened BFile
  import opened Codecs
  import opened Hierarchy
  import opened Listing
  import opened Numbering
  import opened Records
  import opened Grammar
  import opened Linking

  function InfosOf(rs: seq<Record>, n: nat): (infos: seq<Info>)
    requires n <= |rs|
    ensures |infos| == n && forall i :: 0 <= i < n ==> infos[i] == Info(rs[i], false)
  {
    seq(n, i requires 0 <= i < n => Info(rs[i], false))
  }

  /** The nodes in the array of roots. */
  ghost predicate Roofs(all: seq<Node>, path: seq<nat>, rs: seq<Record>, roots: seq<Node>) {
    && |all| <= |rs| && |roots| == Roots(rs, |all|) && (path == [] <==> |all| == 0)
    && (path != [] ==> path[0] < |all| && roots != [] && roots[0] == all[0] && roots[|roots| - 1] == all[path[0]])
  }

  /**
   The stack holds the array of each open level; and when the last node of the current level has
   children, the array after it is that node's, whatever deeper level was built there in between.
   */
  ghost predicate Stacked(w: Ledger, path: seq<nat>, root: ChildArray, stack: seq<ChildArray>, level: nat)
    requires forall l :: 0 <= l < |path| ==> path[l] < |w.arrays|
  {
    && level == (if path == [] then 0 else |path| - 1)
    && level < |stack| && stack[0] == root
    && (forall l :: 0 <= l < level ==> w.arrays[path[l]] == stack[l + 1])
    && (path != [] && w.arrays[path[level]] != null ==>
        level + 1 < |stack| && stack[level + 1] == w.arrays[path[level]])
  }

  /** The loop invariant of the loader, after the first `w.a.Count()` records. */
  ghost predicate Kept(w: Ledger, path: seq<nat>, rs: seq<Record>, root: ChildArray, stack: seq<ChildArray>, level: nat)
    reads w.all, w.arrays, root
  {
    && Follows(w.a, path, rs) && w.infos == InfosOf(rs, w.a.Count())
    && (forall l :: 0 <= l < |path| ==> path[l] < w.a.Count())
    && AllRecorded(w) && SealedBut(w, OpenOf(path), -1)
    && root !in w.arrays && Roofs(w.all, path, rs, root.elems)
    && Stacked(w, path, root, stack, level)
  }

  lemma KeptParts(w: Ledger, path: seq<nat>, rs: seq<Record>, root: ChildArray, stack: seq<ChildArray>, level: nat)
    requires Kept(w, path, rs, root, stack, level)
    ensures Distinct(w) && AllRecorded(w) && |w.arrays| == |w.all| == w.a.Count() <= |rs|
    ensures SealedBut(w, OpenOf(path), -1) && w.infos == InfosOf(rs, w.a.Count())
    ensures path == [] || OnPath(w.a, path)
    ensures forall l :: 0 <= l < |path| ==> path[l] < w.a.Count()
    ensures root !in w.arrays && Roofs(w.all, path, rs, root.elems) && Stacked(w, path, root, stack, level)
  {
    hide EachSpans, ListOk, Leveled, SealedBut, Stacked, Roofs, Depth, InfosOf, PathStep;
  }

  /** The last node of each array on the stack is the one the path goes through. */
  lemma StackLast(w: Ledger, path: seq<nat>, rs: seq<Record>, root: ChildArray, stack: seq<ChildArray>, level: nat,
                  l: nat)
    requires Kept(w, path, rs, root, stack, level) && path != [] && l <= level
    ensures stack[l].elems != [] && stack[l].elems[|stack[l].elems| - 1] == w.all[path[l]]
    ensures l > 0 ==> stack[l] == w.arrays[path[l - 1]]
  {
    hide Kept, SealedBut, Distinct, OnPath, InfosOf, AllRecorded, Roofs;
    KeptParts(w, path, rs, root, stack, level);
    PathKid(w.a, path, l);
    if l > 0 {
      assert stack[l - 1 + 1] == w.arrays[path[l - 1]];
      ArrayLast(w, path[l - 1]);
    } else {
      RootLast(w.all, path, rs, root.elems);
    }
  }

  lemma RootLast(all: seq<Node>, path: seq<nat>, rs: seq<Record>, roots: seq<Node>)
    requires Roofs(all, path, rs, roots) && path != []
    ensures path[0] < |all| && roots != [] && roots[|roots| - 1] == all[path[0]]
  {
  }

  lemma ArrayLast(w: Ledger, p: nat)
    requires AllRecorded(w) && p < w.a.Count() && w.a.kids[p] != []
    ensures var last := w.a.kids[p][|w.a.kids[p]| - 1];
      && p < |w.arrays| && w.arrays[p] != null && w.arrays[p].elems != []
      && last < |w.all| && w.arrays[p].elems[|w.arrays[p].elems| - 1] == w.all[last]
  {
    hide AllRecorded;
    RecordedAt(w, p);
    assert w.a.kids[p][|w.a.kids[p]| - 1] < |w.all|;
  }

  /** Making sure that the last node of a level has an array to put its next child into. */
  method Reserve(stack: seq<ChildArray>, level: nat, last: Node,
                 ghost w: Ledger, ghost path: seq<nat>, ghost rs: seq<Record>, ghost root: ChildArray)
                   returns (stack': seq<ChildArray>)
    requires Kept(w, path, rs, root, stack, level) && path != [] && last == w.all[path[level]]
    ensures |stack'| > level + 1 && stack'[..level + 1] == stack[..level + 1]
    ensures Target(w, path[level], stack'[level + 1]) && stack'[level + 1] != root
    ensures stack'[level + 1] in w.arrays || fresh(stack'[level + 1])
  {
    LastNotOpen(w.a, path);
    assert Sealed(w, path[level]);
    stack' := stack;
    if last.children == null {
      var children := new ChildArray([]);
      stack' := stack[..level + 1] + [children];
    }
  }

  lemma LastNotOpen(a: Arena, path: seq<nat>)
    requires OnPath(a, path)
    ensures path[|path| - 1] !in OpenOf(path)
    ensures path[|path| - 1] < a.Count()
  {
    PathAllDistinct(a, path);
    PathBounds(a, path);
  }

  /** A new node is the last root if it is put below nothing. */
  lemma RoofsNext(all: seq<Node>, path: seq<nat>, rs: seq<Record>, roots: seq<Node>, node: Node, q: int)
    requires Roofs(all, path, rs, roots) && |all| < |rs|
    requires var k := KindOf(rs[|all|].opcode);
      && q == ParentPlace(k, path) >= -1
      && (q == -1 <==> k.Plain? && Depth(rs, |all|) == 0)
    ensures Roofs(all + [node], NextPath(KindOf(rs[|all|].opcode), path, |all|), rs,
                  if q < 0 then roots + [node] else roots)
  {
    hide KindOf;
  }

  /** What is known of the ledger after the next node, apart from the array it is in. */
  lemma NextSealed(w: Ledger, path: seq<nat>, rs: seq<Record>, q: int, target: ChildArray, node: Node)
    requires Follows(w.a, path, rs) && Loadable(rs) && w.a.Count() < |rs|
    requires AllRecorded(w) && SealedBut(w, OpenOf(path), -1) && w.infos == InfosOf(rs, w.a.Count())
    requires node !in w.all && node.children == null
    requires q == ParentPlace(KindOf(rs[w.a.Count()].opcode), path)
    requires q < 0 || (q < |path| && path[q] < w.a.Count() && (w.arrays[path[q]] == target || target !in w.arrays)
                       && w.arrays[path[q]] in {target, null})
    ensures q < 0 || OnPath(w.a, path)
    ensures |w.all| == w.a.Count() == |w.arrays| && q >= -1
    ensures q == -1 <==> KindOf(rs[w.a.Count()].opcode).Plain? && Depth(rs, w.a.Count()) == 0
    ensures var n := w.a.Count();
      var k := KindOf(rs[n].opcode);
      var path' := NextPath(k, path, n);
      var w' := Next(w, path, q, target, node, Info(rs[n], false));
      && Follows(w'.a, path', rs) && w'.a.Count() == n + 1 && w'.infos == InfosOf(rs, n + 1)
      && (forall l :: 0 <= l < |path'| ==> path'[l] < n + 1)
      && SealedBut(w', OpenOf(path'), if k.Ancillary? || k.PopNode? then path[q] else -1)
  {
    hide Spans, Leveled, ListOk, Recorded, PathStep, KindOf, Known, LoadableAt, Added, InfosOf;
    var n := w.a.Count();
    FollowsStep(w.a, path, rs);
    var info := Info(rs[n], false);
    var k := KindOf(rs[n].opcode);
    var path' := NextPath(k, path, n);
    NextDistinct(w, path, q, target, node, info);
    PathBounds(Next(w, path, q, target, node, info).a, path');
    hide EachSpans, Distinct;
    if q < 0 {
      GrownRootSealed(w, node, info, OpenOf(path));
    } else {
      OpenNext(k, w.a, path);
      GrownSealed(w, path, q, target, node, info, OpenOf(path), OpenOf(path'));
      GrownUnlinked(w, path, q, target, node, info, OpenOf(path));
    }
  }

  /** Putting the next node into the array it belongs in. */
  method Place(target: ChildArray, node: Node, ghost w: Ledger, ghost path: seq<nat>, ghost rs: seq<Record>,
               ghost root: ChildArray, ghost stack: seq<ChildArray>, ghost level: nat, ghost k: Kind, ghost q: int)
    returns (ghost w': Ledger, ghost path': seq<nat>)
    requires Kept(w, path, rs, root, stack, level) && Loadable(rs) && w.a.Count() < |rs|
    requires node !in w.all && node.TheInfo() == Info(rs[w.a.Count()], false) && node.children == null &&
             node.parent == null
    requires k == KindOf(rs[w.a.Count()].opcode) && q == ParentPlace(k, path)
    requires if q < 0 then target == root else Target(w, path[q], target) && target != root
    modifies target
    ensures target.elems == old(target.elems) + [node]
    ensures OnPath(w.a, path) || q < 0
    ensures path' == NextPath(k, path, w.a.Count()) &&
            w' == Next(w, path, q, target, node, Info(rs[w.a.Count()], false))
    ensures Follows(w'.a, path', rs) && w'.a.Count() == w.a.Count() + 1 && w'.infos == InfosOf(rs, w'.a.Count())
    ensures AllRecorded(w') && (forall l :: 0 <= l < |path'| ==> path'[l] < w'.a.Count())
    ensures SealedBut(w', OpenOf(path'), if k.Ancillary? || k.PopNode? then path[q] else -1)
    ensures root !in w'.arrays && Roofs(w'.all, path', rs, root.elems)
  {
    hide Follows, Loadable, Roofs, KindOf, Distinct, AllRecorded, SealedBut, Added, NextPath;
    ghost var n := w.a.Count();
    ghost var info := Info(rs[n], false);
    NextSealed(w, path, rs, q, target, node);
    path' := NextPath(k, path, n);
    w' := Next(w, path, q, target, node, info);
    RoofsNext(w.all, path, rs, root.elems, node, q);
    Append(w, path, q, target, node, info);
  }

  /** The stack fits the ledger again after the next node. */
  lemma StackedNext(w: Ledger, path: seq<nat>, k: Kind, root: ChildArray, stack: seq<ChildArray>, level: nat,
                    stack': seq<ChildArray>, target: ChildArray, node: Node, info: Info)
    requires OnPath(w.a, path) || path == []
    requires (forall l :: 0 <= l < |path| ==> path[l] < w.a.Count()) && |w.arrays| == w.a.Count()
    requires Stacked(w, path, root, stack, level) && |stack'| > level && stack'[..level + 1] == stack[..level + 1]
    requires -1 <= ParentPlace(k, path) && (ParentPlace(k, path) == -1 ==> k.Plain?)
    requires if k.PushNode? || k.Ancillary? then level + 1 < |stack'| && target == stack'[level + 1]
             else target == stack'[level]
    ensures var path' := NextPath(k, path, w.a.Count());
      var level' := if k.PushNode? then level + 1 else if k.PopNode? then level - 1 else level;
      var w' := Next(w, path, ParentPlace(k, path), target, node, info);
      && level' >= 0 && (forall l :: 0 <= l < |path'| ==> path'[l] < |w'.arrays|)
      && Stacked(w', path', root, stack', level')
      && (ParentPlace(k, path) >= 0 ==> w'.arrays[path[ParentPlace(k, path)]] == target)
  {
    var q := ParentPlace(k, path);
    var n := w.a.Count();
    var path' := NextPath(k, path, n);
    var w' := Next(w, path, q, target, node, info);
    if path != [] {
      PathAllDistinct(w.a, path);
    }
    hide OnPath, Added;
    PrefixAt(stack, stack', level);
    assert forall l :: 0 <= l < |path'| ==> path'[l] == if l < |path| && (l <= q) then path[l] else n;
  }

  /** The arrays on the stack differ from each other, and from the one the last node may have. */
  lemma StackDistinct(w: Ledger, path: seq<nat>, rs: seq<Record>, root: ChildArray, stack: seq<ChildArray>, level: nat,
                      l: nat)
    requires Kept(w, path, rs, root, stack, level) && path != [] && l <= level
    ensures forall m :: l < m <= level ==> stack[m] != stack[l]
    ensures w.arrays[path[level]] != stack[l]
    ensures stack[l] == root || stack[l] in w.arrays
  {
    hide Kept, AllRecorded, SealedBut, OnPath, InfosOf, Roofs, Filled;
    KeptParts(w, path, rs, root, stack, level);
    PathAllDistinct(w.a, path);
    forall m | 0 < m <= level
      ensures stack[m] == w.arrays[path[m - 1]]
    {
      assert stack[m - 1 + 1] == stack[m];
    }
  }

  /** Where the next record goes, in terms of the level. */
  lemma LevelIs(w: Ledger, path: seq<nat>, rs: seq<Record>, root: ChildArray, stack: seq<ChildArray>, level: nat)
    requires Kept(w, path, rs, root, stack, level) && Loadable(rs) && w.a.Count() < |rs|
    ensures |w.all| == |w.arrays| == w.a.Count()
    ensures path == [] || (OnPath(w.a, path) && |path| == level + 1)
    ensures level < |stack| && stack[0] == root
    ensures var k := KindOf(rs[w.a.Count()].opcode);
      && -1 <= ParentPlace(k, path) && (ParentPlace(k, path) == -1 ==> k.Plain? && level == 0)
      && (path == [] ==> k.Plain?) && (k.PopNode? ==> level > 0)
  {
    FollowsStep(w.a, path, rs);
    assert LoadableAt(rs, w.a.Count());
  }

  /** What `MakeRoom` does to the stack. */
  ghost predicate RoomMade(w: Ledger, path: seq<nat>, root: ChildArray, stack: seq<ChildArray>, level: nat, k: Kind,
                           stack': seq<ChildArray>)
    reads stack'
  {
    && level < |stack| && level < |stack'| && stack'[..level + 1] == stack[..level + 1]
    && (k.PushNode? || k.Ancillary? ==>
          && |path| == level + 1 < |stack'| && path[level] < |w.arrays|
          && Target(w, path[level], stack'[level + 1]) && stack'[level + 1] != root)
  }

  /** Before a push or ancillary node: an array for it, and for the nodes between the pushes. */
  method MakeRoom(stack: seq<ChildArray>, level: nat, kind: Kind,
                  ghost w: Ledger, ghost path: seq<nat>, ghost rs: seq<Record>, ghost root: ChildArray)
    returns (stack': seq<ChildArray>, level': nat)
    requires Kept(w, path, rs, root, stack, level) && Loadable(rs) && w.a.Count() < |rs|
    requires kind == KindOf(rs[w.a.Count()].opcode)
    ensures RoomMade(w, path, root, stack, level, kind, stack')
    ensures level' == if kind.PushNode? then level + 1 else level
    ensures kind.PushNode? || kind.Ancillary? ==> stack'[level + 1] in w.arrays || fresh(stack'[level + 1])
  {
    LevelIs(w, path, rs, root, stack, level);
    stack', level' := stack, level;
    if kind.PushNode? || kind.Ancillary? {
      StackLast(w, path, rs, root, stack, level, level);
      var last := stack[level].elems[|stack[level].elems| - 1];
      stack' := Reserve(stack, level, last, w, path, rs, root);
      if kind.PushNode? {
        level' := level + 1;
      }
    }
  }

  /** Placing an ancillary or pop node, and linking the children it is among to their parent, the last node `above`. */
  method PlaceAndClose(above: ChildArray, target: ChildArray, node: Node, ghost w: Ledger, ghost path: seq<nat>,
                       ghost rs: seq<Record>,
                       ghost root: ChildArray, ghost stack: seq<ChildArray>, ghost level: nat, ghost k: Kind,
                         ghost q: nat)
    returns (ghost w': Ledger, ghost path': seq<nat>)
    requires Kept(w, path, rs, root, stack, level) && Loadable(rs) && w.a.Count() < |rs|
    requires node !in w.all && node.TheInfo() == Info(rs[w.a.Count()], false) && node.children == null &&
             node.parent == null
    requires k == KindOf(rs[w.a.Count()].opcode) && q == ParentPlace(k, path) && (k.Ancillary? || k.PopNode?)
    requires q < |path| && path[q] < w.a.Count() && |w.arrays| == |w.all| == w.a.Count() &&
             Target(w, path[q], target) && target != root
    requires above != target && above.elems != [] && above.elems[|above.elems| - 1] == w.all[path[q]]
    modifies target, NodeObjects(w), node
    ensures OnPath(w.a, path)
    ensures path' == NextPath(k, path, w.a.Count()) &&
            w' == Next(w, path, q, target, node, Info(rs[w.a.Count()], false))
    ensures Follows(w'.a, path', rs) && w'.a.Count() == w.a.Count() + 1 && w'.infos == InfosOf(rs, w'.a.Count())
    ensures AllRecorded(w') && (forall l :: 0 <= l < |path'| ==> path'[l] < w'.a.Count())
    ensures SealedBut(w', OpenOf(path'), -1)
    ensures root !in w'.arrays && Roofs(w'.all, path', rs, root.elems)
  {
    hide Follows, Loadable, Roofs, KindOf, AllRecorded, SealedBut, NextPath, OpenOf, InfosOf, OnPath, Kept, Target;
    w', path' := Place(target, node, w, path, rs, root, stack, level, k, q);
    NextObjects(w, path, q, target, node, Info(rs[w.a.Count()], false));
    NextAt(w, path, q, target, node, Info(rs[w.a.Count()], false));
    Close(w', OpenOf(path'), path[q], above.elems[|above.elems| - 1], target);
  }

  lemma NextAt(w: Ledger, path: seq<nat>, q: nat, target: ChildArray, node: Node, info: Info)
    requires OnPath(w.a, path) && q < |path| && path[q] < |w.arrays| == |w.all| == w.a.Count()
    ensures var w' := Next(w, path, q, target, node, info);
      path[q] < |w'.all| == |w'.arrays| && w'.all[path[q]] == w.all[path[q]] && w'.arrays[path[q]] == target
  {
    PathBounds(w.a, path);
  }

  /** The array the next node is put into, and the one whose last node is its parent. */
  function TargetPlace(k: Kind, level: nat): nat {
    if k.PushNode? || k.Ancillary? then level + 1 else level
  }

  function AbovePlace(k: Kind, level: nat): int {
    if k.PopNode? || k.Plain? then level - 1 else level
  }

  /** The arrays on the stack are the right ones for the next node. */
  ghost predicate Fits(w: Ledger, path: seq<nat>, root: ChildArray, stack: seq<ChildArray>, level: nat, k: Kind, q: int)
    reads stack
  {
    && q >= -1 && TargetPlace(k, level) < |stack|
    && var target := stack[TargetPlace(k, level)];
    if q == -1 then k.Plain? && target == root else
      && q == AbovePlace(k, level) && level < |stack|
      && OnPath(w.a, path) && q < |path| && path[q] < w.a.Count() == |w.arrays| == |w.all|
      && Target(w, path[q], target) && target != root && (k.Plain? || k.PopNode? ==> target in w.arrays)
      && stack[q] != target && stack[q].elems != [] && stack[q].elems[|stack[q].elems| - 1] == w.all[path[q]]
  }

  /** Room having been made, they are. */
  lemma RightPlace(w: Ledger, path: seq<nat>, rs: seq<Record>, root: ChildArray, stack: seq<ChildArray>, level: nat,
                   k: Kind, stack': seq<ChildArray>)
    requires Kept(w, path, rs, root, stack, level) && Loadable(rs) && w.a.Count() < |rs|
    requires k == KindOf(rs[w.a.Count()].opcode)
    requires RoomMade(w, path, root, stack, level, k, stack')
    ensures Fits(w, path, root, stack', level, k, ParentPlace(k, path))
  {
    hide Follows, Loadable, Roofs, KindOf, Distinct, AllRecorded, SealedBut, OnPath, Stacked, Kept, InfosOf, OpenOf;
    PrefixAt(stack, stack', level);
    KeptParts(w, path, rs, root, stack, level);
    LevelIs(w, path, rs, root, stack, level);
    var q := ParentPlace(k, path);
    if q >= 0 {
      StackLast(w, path, rs, root, stack, level, q);
      StackDistinct(w, path, rs, root, stack, level, q);
      if q < level {
        StackLast(w, path, rs, root, stack, level, q + 1);
        StackDistinct(w, path, rs, root, stack, level, q + 1);
      }
    }
  }

  /** One turn of the loop: the node just read finds its place. */
  method Insert(stack: seq<ChildArray>, level: nat, node: Node,
                ghost w: Ledger, ghost path: seq<nat>, ghost rs: seq<Record>, ghost root: ChildArray)
    returns (stack': seq<ChildArray>, level': nat, ghost w': Ledger, ghost path': seq<nat>)
    requires Kept(w, path, rs, root, stack, level) && Loadable(rs) && w.a.Count() < |rs|
    requires node !in w.all && node.TheInfo() == Info(rs[w.a.Count()], false) && node.children == null &&
             node.parent == null
    modifies Objects(w), root, node
    ensures Kept(w', path', rs, root, stack', level') && w'.a.Count() == w.a.Count() + 1
    ensures w'.all == w.all + [node]
    ensures fresh(Objects(w') - Objects(w) - {node})
  {
    hide Follows, Loadable, Roofs, KindOf, Distinct, AllRecorded, SealedBut, Added, NextPath, OpenOf, InfosOf, OnPath,
         Recorded, Sealed, Stacked, Kept,
         NodeObjects, ArrayObjects, Next, ParentPlace, Target;
    var kind := KindOf(node.opcode);
    stack', level' := MakeRoom(stack, level, kind, w, path, rs, root);
    ghost var q, target := ParentPlace(kind, path), stack'[TargetPlace(kind, level)];
    ghost var info := Info(rs[w.a.Count()], false);
    RightPlace(w, path, rs, root, stack, level, kind, stack');
    KeptParts(w, path, rs, root, stack, level);
    StackedNext(w, path, kind, root, stack, level, stack', target, node, info);
    NextObjects(w, path, q, target, node, info);
    ArrayHeld(w, target);
    if kind.Ancillary? {
      w', path' := PlaceAndClose(stack'[level'], stack'[level' + 1], node, w, path, rs, root, stack, level, kind, q);
    } else if kind.PopNode? {
      w', path' := PlaceAndClose(stack'[level' - 1], stack'[level'], node, w, path, rs, root, stack, level, kind, q);
      level' := level' - 1;
    } else {
      w', path' := Place(stack'[level'], node, w, path, rs, root, stack, level, kind, q);
    }
    KeptAgain(w', path', rs, root, stack', level');
  }

  lemma ArrayHeld(w: Ledger, target: ChildArray)
    ensures target in w.arrays ==> target in ArrayObjects(w)
  {
  }

  lemma KeptAgain(w: Ledger, path: seq<nat>, rs: seq<Record>, root: ChildArray, stack: seq<ChildArray>, level: nat)
    requires Follows(w.a, path, rs) && w.infos == InfosOf(rs, w.a.Count())
    requires forall l :: 0 <= l < |path| ==> path[l] < w.a.Count()
    requires AllRecorded(w) && SealedBut(w, OpenOf(path), -1) && |w.arrays| == w.a.Count()
    requires root !in w.arrays && Roofs(w.all, path, rs, root.elems)
    requires Stacked(w, path, root, stack, level)
    ensures Kept(w, path, rs, root, stack, level)
  {
  }

  lemma PrefixAt(s: seq<ChildArray>, s': seq<ChildArray>, level: nat)
    requires level < |s| && level < |s'| && s[..level + 1] == s'[..level + 1]
    ensures forall l :: 0 <= l <= level ==> s'[l] == s[l]
  {
    assert forall l :: 0 <= l <= level ==> s'[..level + 1][l] == s'[l] && s[..level + 1][l] == s[l];
  }

  /* Reading. */

  /**
   The header and the payload of one record.  The opcode is peeked first: on level 0 some opcodes are
   taken for trailing garbage, and so is what a peek cannot see.  Kinds with a load function of their own
   may refuse the record, and read as much as they need.
   */
  method ReadNode(r: Reader, level: nat) returns (node: Node?, garbage: bool)
    requires r.Valid() && r.pos < |r.file| && Recognized(r.file, r.pos, level)
    modifies r, r.buffer
    ensures r.Valid() && (garbage <==> IsGarbage(r.file, old(r.pos), level))
    ensures garbage ==> node == null && r.pos == old(r.pos)
    ensures !garbage ==> (node == null <==> IsRefused(r.file, old(r.pos)) || RecordAt(r.file, old(r.pos)).None?)
    ensures node != null ==>
      var record := RecordAt(r.file, old(r.pos)).value;
      && fresh(node) && node.TheInfo() == Info(record, false) && node.children == null && node.parent == null
      && r.pos == old(r.pos) + 4 + |record.data|
  {
    hide Decode, Reader.Valid, ByteAt, RecordAt, Peeked, HasCodec, Refused, Extent;
    r.InFile();
    node, garbage := null, false;
    if |r.file| - r.pos < 4 {
      TooShort(r.file, r.pos);
      return;
    }
    ghost var start := r.pos;
    var peeked := r.PeekUint16Be();
    if peeked in {0, 0xa000, 0x3230, 11} {
      if level > 0 {
        assert peeked == 11;
      } else {
        garbage := true;
        return;
      }
    }
    assert peeked != 0x0b00;
    HeaderAt(r.file, start);
    var opcode := r.GetWord(U16Be);
    var length := r.GetWord(U16Be);
    if HasCodec(opcode) {
      if Refused(opcode, length) {
        var moved := r.Rewind(4);
        return;
      }
    } else {
      NoCodec(opcode, length, r.file[start + 4..]);
      if length > |r.file| - r.pos + 4 {
        return;
      }
    }
    var data := ReadPayload(r, opcode, length);
    node := new Node(Record(opcode, length, data));
  }

  lemma NoCodec(opcode: nat, length: nat, after: seq<Byte>)
    requires !HasCodec(opcode)
    ensures !Refused(opcode, length) && Extent(opcode, length, after) == if length > 4 then length - 4 else 0
  {
  }

  lemma TooShort(file: seq<Byte>, pos: nat)
    requires pos <= |file| && |file| - pos < 4
    ensures RecordAt(file, pos).None?
  {
  }

  /** What follows the header; the first word of a vertex palette says how much more there is. */
  method ReadPayload(r: Reader, opcode: nat, length: nat) returns (data: seq<Byte>)
    requires r.Valid() && r.pos <= |r.file| && r.pos + Extent(opcode, length, r.file[r.pos..]) <= |r.file|
    modifies r, r.buffer
    ensures r.Valid() && r.pos == old(r.pos) + Extent(opcode, length, r.file[old(r.pos)..])
    ensures data == r.file[old(r.pos)..r.pos]
  {
    hide Reader.Valid, Decode, Encode;
    if opcode == VERTEX_PALETTE {
      WordAhead(r.file, r.pos);
      var total := r.GetWord(S32Be);
      var rest := ReadBytes(r, if total > 8 then total - 8 else 0);
      data := Encode(S32Be, total) + rest;
    } else {
      data := ReadBytes(r, Extent(opcode, length, []));
    }
  }

  lemma WordAhead(file: seq<Byte>, pos: nat)
    requires pos + 4 <= |file|
    ensures Window(file, pos, 4) == file[pos..pos + 4] == file[pos..][..4]
    ensures Encode(S32Be, Decode(S32Be, file[pos..pos + 4])) == file[pos..pos + 4]
  {
    EncodeDecode(S32Be, file[pos..pos + 4]);
  }

  method ReadBytes(r: Reader, n: nat) returns (data: seq<Byte>)
    requires r.Valid() && r.pos + n <= |r.file|
    modifies r, r.buffer
    ensures r.Valid() && r.pos == old(r.pos) + n && data == r.file[old(r.pos)..r.pos]
  {
    var into := new Byte[n];
    var hasread := r.Read(into, 0, n);
    data := into[..];
  }

  lemma HeaderAt(file: seq<Byte>, pos: nat)
    requires pos + 4 <= |file|
    ensures Window(file, pos, 2) == file[pos..pos + 2] && Window(file, pos + 2, 2) == file[pos + 2..pos + 4]
    ensures var opcode := Decode(U16Be, Window(file, pos, 2));
      var length := Decode(U16Be, Window(file, pos + 2, 2));
      && opcode >= 0 && length >= 0
      && var n := Extent(opcode, length, file[pos + 4..]);
      && (RecordAt(file, pos).Some? <==> pos + 4 + n <= |file|)
      && (pos + 4 + n <= |file| ==> RecordAt(file, pos).value == Record(opcode, length, file[pos + 4..pos + 4 + n]))
  {
    DecodeIsNat(file[pos..pos + 2]);
    DecodeIsNat(file[pos + 2..pos + 4]);
    hide Decode, Extent;
  }

  /** The lines of a listing are the records of a stream, at the depths the stream tells. */
  ghost predicate IsFlat(ls: seq<Line>, rs: seq<Record>) {
    |ls| == |rs| && forall n :: 0 <= n < |ls| ==> ls[n].record == rs[n] && ls[n].level == LevelAt(rs, n)
  }

  /**
   A loaded hierarchy: linked both ways, of different nodes, made as the grammar says, and in the order of the
   records.
   */
  ghost predicate Loaded(t: Tree, S: set<object>, rs: seq<Record>)
    reads S
  {
    && Linked(t, S) && Parented(t, S) && t.node.parent == null && NodesApart([t])
    && Grammatical([t]) && AllKnown([t])
    && IsFlat(LinesOf(List([t], 0, 0)), rs)
  }

  lemma {:induction false} TreeGrammatical(w: Ledger, rs: seq<Record>, i: nat)
    requires Distinct(w) && |rs| == w.a.Count() && w.infos == InfosOf(rs, |rs|) && i < w.a.Count()
    requires forall n :: 0 <= n < |rs| ==> Known(rs[n].opcode) && ListOk(w.a, [], rs, n)
    ensures Grammatical([TreeOf(w, i)]) && AllKnown([TreeOf(w, i)])
    decreases w.a.Count() - i
  {
    hide Known, KindOf;
    assert Spans(w.a, i) && ListOk(w.a, [], rs, i);
    var t := TreeOf(w, i);
    assert Kinds(t.kids) == KidKinds(w.a.kids[i], rs);
    assert t.kids == [] <==> w.a.kids[i] == [];
    hide Spans, ListOk, Distinct, PlaceAfter;
    forall j | 0 <= j < |t.kids|
      ensures Grammatical([t.kids[j]]) && AllKnown([t.kids[j]])
    {
      assert t.kids[j] == TreeOf(w, w.a.kids[i][j]);
      TreeGrammatical(w, rs, w.a.kids[i][j]);
    }
    EachGrammatical(t.kids);
  }

  lemma EachGrammatical(ts: seq<Tree>)
    requires forall j :: 0 <= j < |ts| ==> Grammatical([ts[j]]) && AllKnown([ts[j]])
    ensures Grammatical(ts) && AllKnown(ts)
  {
    hide PlaceAfter, Known;
    forall j | 0 <= j < |ts|
      ensures PlaceAfter(Kinds(ts[j].kids)) == Outside
      ensures ts[j].kids != [] ==> ts[j].info.Kind() in {PushNode, Plain}
      ensures Grammatical(ts[j].kids) && Known(ts[j].info.record.opcode) && AllKnown(ts[j].kids)
    {
      assert [ts[j]][0] == ts[j];
    }
  }

  /** When all pushes are closed and there is one root, everything is below number 0. */
  lemma AllClosed(w: Ledger, path: seq<nat>, rs: seq<Record>, root: ChildArray, stack: seq<ChildArray>, level: nat)
    requires Kept(w, path, rs, root, stack, level)
    requires w.a.Count() == |rs| && Roots(rs, |rs|) == 1 && Depth(rs, |rs|) == 0
    ensures |rs| > 0 && AllRecorded(w) && AllSealed(w) && root.elems == [w.all[0]] && path == [0]
    ensures w.all[0].parent == null && w.a.ends[0] == |rs| && w.a.dep[0] == 0
  {
    hide ListOk, PlaceAfter, KindOf, Known, LevelAt, Linking.Sealed, Spans;
    assert path == [0];
    assert Recorded(w, 0) && PathStep(w.a, path, 0);
    forall i | 0 <= i < w.a.Count()
      ensures Linking.Sealed(w, i)
    {
      assert i !in OpenOf(path);
    }
  }

  lemma AllListed(w: Ledger, path: seq<nat>, rs: seq<Record>)
    requires Follows(w.a, path, rs) && Distinct(w) && w.a.Count() == |rs| > 0 && w.infos == InfosOf(rs, |rs|)
    requires path == [0] && w.a.ends[0] == |rs| && w.a.dep[0] == 0
    ensures IsFlat(LinesOf(List([TreeOf(w, 0)], 0, 0)), rs)
    ensures forall n :: 0 <= n < |rs| ==> ListOk(w.a, [], rs, n)
  {
    hide PlaceAfter, KindOf, Known, LevelAt, Spans, Build;
    BuildLists(w.a, w.all, w.infos, 0);
    forall n | 0 <= n < |rs|
      ensures ListOk(w.a, [], rs, n)
    {
      SpansAt(w.a, n);
      assert ListOk(w.a, path, rs, n);
    }
  }

  lemma Apart(w: Ledger)
    requires Distinct(w) && w.a.Count() > 0
    ensures NodesApart([TreeOf(w, 0)])
  {
    BuiltApart(w.a, w.all, w.infos, 0);
  }

  /** The ledger is one loaded hierarchy. */
  lemma LedgerLoaded(w: Ledger, path: seq<nat>, rs: seq<Record>, root: ChildArray, stack: seq<ChildArray>, level: nat)
    requires Kept(w, path, rs, root, stack, level) && Loadable(rs)
    requires w.a.Count() == |rs| && Roots(rs, |rs|) == 1 && Depth(rs, |rs|) == 0
    ensures Distinct(w) && w.a.Count() > 0 && root.elems == [w.all[0]] && Loaded(TreeOf(w, 0), Objects(w), rs)
  {
    AllClosed(w, path, rs, root, stack, level);
    AllListed(w, path, rs);
    hide Follows, SealedBut, Roofs, Stacked, Known, KindOf, Depth, ListOk, Distinct, IsFlat, Objects, InfosOf,
         NodesApart;
    TreeLinked(w, 0);
    Apart(w);
    forall n | 0 <= n < |rs|
      ensures Known(rs[n].opcode)
    {
      assert LoadableAt(rs, n);
    }
    TreeGrammatical(w, rs, 0);
  }

  /** The loop invariant, with what is left of the stream. */
  ghost predicate Reading(r: Reader, end: End, w: Ledger, path: seq<nat>, rs: seq<Record>,
                          root: ChildArray, stack: seq<ChildArray>, level: nat)
    reads r, r.buffer, w.all, w.arrays, root
  {
    && r.Valid() && Kept(w, path, rs, root, stack, level)
    && w.a.Count() <= |rs| && r.pos == Offset(rs, w.a.Count())
    && Parse(r.file, r.pos, level) == (rs[w.a.Count()..], end)
  }

  /** The level is the number of open pushes. */
  lemma LevelIsDepth(w: Ledger, path: seq<nat>, rs: seq<Record>, root: ChildArray, stack: seq<ChildArray>, level: nat)
    requires Kept(w, path, rs, root, stack, level)
    ensures w.a.Count() <= |rs| && level == Depth(rs, w.a.Count())
  {
    hide ListOk, Leveled, AllRecorded, SealedBut, Roofs, PathStep;
  }

  lemma ReadingParts(r: Reader, end: End, w: Ledger, path: seq<nat>, rs: seq<Record>,
                     root: ChildArray, stack: seq<ChildArray>, level: nat)
    requires Reading(r, end, w, path, rs, root, stack, level) && Loadable(rs)
    requires r.pos < |r.file| && Parse(r.file, 0, 0).0 == rs && EndRecognized(r.file)
    ensures r.Valid() && Kept(w, path, rs, root, stack, level) && r.pos == Offset(rs, w.a.Count())
    ensures Recognized(r.file, r.pos, level)
    ensures IsGarbage(r.file, r.pos, level) ==> end.Garbage? && w.a.Count() == |rs|
    ensures !IsGarbage(r.file, r.pos, level) && (IsRefused(r.file, r.pos) || RecordAt(r.file, r.pos).None?) ==>
            end.Failed()
    ensures !IsGarbage(r.file, r.pos, level) && !IsRefused(r.file, r.pos) && RecordAt(r.file, r.pos).Some? ==>
      var record, n := RecordAt(r.file, r.pos).value, w.a.Count();
      var next := r.pos + 4 + |record.data|;
      && n < |rs| && rs[n] == record && next == Offset(rs, n + 1)
      && next <= |r.file| && Parse(r.file, next, Depth(rs, n + 1)) == (rs[n + 1..], end)
  {
    hide Kept, Reader.Loaded, RecordAt, Parse, Known, Loadable, Depth, Offset, IsGarbage, IsRefused, Recognized,
         EndRecognized;
    LevelIsDepth(w, path, rs, root, stack, level);
    Upcoming(r.file, r.pos, rs, w.a.Count(), end);
  }

  lemma StillReading(r: Reader, end: End, w: Ledger, path: seq<nat>, rs: seq<Record>,
                     root: ChildArray, stack: seq<ChildArray>, level: nat)
    requires r.Valid() && r.pos <= |r.file| && Kept(w, path, rs, root, stack, level)
    requires w.a.Count() <= |rs| && r.pos == Offset(rs, w.a.Count())
    requires Parse(r.file, r.pos, Depth(rs, w.a.Count())) == (rs[w.a.Count()..], end)
    ensures Reading(r, end, w, path, rs, root, stack, level)
  {
    hide Kept, Reader.Loaded, Parse, Depth, Offset;
    LevelIsDepth(w, path, rs, root, stack, level);
  }

  /** One record: read, and put where it belongs. */
  method Turn(r: Reader, stack: seq<ChildArray>, level: nat, ghost end: End,
              ghost w: Ledger, ghost path: seq<nat>, ghost rs: seq<Record>, ghost root: ChildArray)
    returns (more: bool, garbage: bool, stack': seq<ChildArray>, level': nat, ghost w': Ledger, ghost path': seq<nat>)
    requires Reading(r, end, w, path, rs, root, stack, level) && Loadable(rs)
    requires r.pos < |r.file| && Parse(r.file, 0, 0).0 == rs && EndRecognized(r.file)
    modifies r, r.buffer, Objects(w), root
    ensures more ==> Reading(r, end, w', path', rs, root, stack', level')
    ensures more ==> if garbage then end.Garbage? && w'.a.Count() == |rs| else r.pos > old(r.pos)
    ensures !more ==> end.Failed()
    ensures fresh(Objects(w') - Objects(w))
  {
    hide Loadable, Reader.Valid, RecordAt, Kept, Parse, Reading, Recognized, EndRecognized, IsGarbage, IsRefused, Depth,
         Offset;
    ReadingParts(r, end, w, path, rs, root, stack, level);
    more, stack', level', w', path' := false, stack, level, w, path;
    var node;
    node, garbage := ReadNode(r, level);
    if node != null {
      stack', level', w', path' := Insert(stack, level, node, w, path, rs, root);
      more := true;
      StillReading(r, end, w', path', rs, root, stack', level');
    } else if garbage {
      more := true;
      GarbageAhead(r, end, w, path, rs, root, stack, level);
    }
  }

  lemma GarbageAhead(r: Reader, end: End, w: Ledger, path: seq<nat>, rs: seq<Record>,
                     root: ChildArray, stack: seq<ChildArray>, level: nat)
    requires r.Valid() && Kept(w, path, rs, root, stack, level) && end.Garbage? && w.a.Count() == |rs|
    requires r.pos <= |r.file| && r.pos == Offset(rs, |rs|) && IsGarbage(r.file, r.pos, level)
    ensures Reading(r, end, w, path, rs, root, stack, level)
  {
    hide Kept, Reader.Loaded, Offset, IsGarbage, Peeked;
    GarbageFits(r.file, r.pos, level);
    assert rs[|rs|..] == [];
  }

  lemma GarbageFits(file: seq<Byte>, pos: nat, level: nat)
    requires pos <= |file| && IsGarbage(file, pos, level)
    ensures pos < |file| && Parse(file, pos, level) == ([], Garbage)
  {
  }

  /**
   `ok` exactly if the file does not end within a record, none is refused, and one record starts a root.  If the last
   push is closed as well, the model holds the hierarchy of the file, up to trailing garbage.
   */
  method Load(r: Reader) returns (ok: bool, header: Node?, ghost ts: seq<Tree>, ghost S: set<object>)
    requires r.Valid() && r.pos == 0 && Loadable(Parse(r.file, 0, 0).0) && EndRecognized(r.file)
    modifies r, r.buffer
    ensures var (rs, end) := Parse(r.file, 0, 0);
      && InNumbers(r.file, 0, rs, end)
      && (ok <==> !end.Failed() && Roots(rs, |rs|) == 1)
      && (ok <==> header != null)
      && (ok && Depth(rs, |rs|) == 0 ==>
            |ts| == 1 && header == ts[0].node && fresh(S) && Loaded(ts[0], S, rs))
  {
    hide Loadable, Reader.Loaded, Loaded, Reading, Parse, RecordAt, Depth, Roots, EndRecognized, InNumbers;
    ghost var (rs, end) := Parse(r.file, 0, 0);
    ParseInNumbers(r.file, 0, 0);
    var root := new ChildArray([]);
    var stack, level, garbage := [root], 0, false;
    ghost var w, path := Ledger(EmptyArena, [], [], []), [];
    StartReading(r, end, rs, root);
    ok, header, ts, S := false, null, [], {};
    while r.pos < |r.file| && !garbage
      invariant Reading(r, end, w, path, rs, root, stack, level)
      invariant garbage ==> end.Garbage? && w.a.Count() == |rs|
      invariant fresh(root) && fresh(Objects(w))
      decreases !garbage, |r.file| - r.pos
    {
      var more;
      more, garbage, stack, level, w, path := Turn(r, stack, level, end, w, path, rs, root);
      if !more {
        return;
      }
    }
    EndReading(r, end, w, path, rs, root, stack, level);
    if |root.elems| == 1 {
      ok, header := true, root.elems[0];
      if Depth(rs, |rs|) == 0 {
        ts, S := [TreeOf(w, 0)], Objects(w);
      }
    }
  }

  lemma StartReading(r: Reader, end: End, rs: seq<Record>, root: ChildArray)
    requires r.Valid() && r.pos == 0 && (rs, end) == Parse(r.file, 0, 0) && root.elems == []
    ensures Reading(r, end, Ledger(EmptyArena, [], [], []), [], rs, root, [root], 0)
  {
    hide Kept, Parse;
    assert rs[0..] == rs;
    KeptAtStart(rs, root);
  }

  lemma EndReading(r: Reader, end: End, w: Ledger, path: seq<nat>, rs: seq<Record>,
                   root: ChildArray, stack: seq<ChildArray>, level: nat)
    requires Reading(r, end, w, path, rs, root, stack, level) && Loadable(rs)
    requires r.pos >= |r.file| || (end.Garbage? && w.a.Count() == |rs|)
    ensures !end.Failed() && w.a.Count() == |rs| && |root.elems| == Roots(rs, |rs|)
    ensures Roots(rs, |rs|) == 1 && Depth(rs, |rs|) == 0 ==>
      Distinct(w) && |rs| > 0 && root.elems == [w.all[0]] && Loaded(TreeOf(w, 0), Objects(w), rs)
  {
    hide Kept, Loadable, Loaded, Depth, Roots, RecordAt, Distinct;
    RootCount(w, path, rs, root, stack, level);
    if r.pos >= |r.file| {
      assert |rs[w.a.Count()..]| == 0;
    }
    if Roots(rs, |rs|) == 1 && Depth(rs, |rs|) == 0 {
      LedgerLoaded(w, path, rs, root, stack, level);
    }
  }

  lemma RootCount(w: Ledger, path: seq<nat>, rs: seq<Record>, root: ChildArray, stack: seq<ChildArray>, level: nat)
    requires Kept(w, path, rs, root, stack, level)
    ensures |w.all| == w.a.Count() && |root.elems| == Roots(rs, w.a.Count())
  {
  }

  lemma KeptAtStart(rs: seq<Record>, root: ChildArray)
    requires root.elems == []
    ensures Kept(Ledger(EmptyArena, [], [], []), [], rs, root, [root], 0)
  {
  }

  /** What the next record is, as the whole parse has it. */
  lemma Upcoming(file: seq<Byte>, pos: nat, rs: seq<Record>, n: nat, end: End)
    requires pos < |file| && n <= |rs| && Loadable(rs) && pos == Offset(rs, n)
    requires Parse(file, 0, 0).0 == rs && EndRecognized(file)
    requires Parse(file, pos, Depth(rs, n)) == (rs[n..], end)
    ensures Recognized(file, pos, Depth(rs, n))
    ensures IsGarbage(file, pos, Depth(rs, n)) ==> end.Garbage? && n == |rs|
    ensures !IsGarbage(file, pos, Depth(rs, n)) && (IsRefused(file, pos) || RecordAt(file, pos).None?) ==> end.Failed()
    ensures !IsGarbage(file, pos, Depth(rs, n)) && !IsRefused(file, pos) && RecordAt(file, pos).Some? ==>
      var r := RecordAt(file, pos).value;
      var next := pos + 4 + |r.data|;
      && n < |rs| && rs[n] == r && next == Offset(rs, n + 1)
      && next <= |file| && Parse(file, next, Depth(rs, n + 1)) == (rs[n + 1..], end)
  {
    hide Known, KindOf, Parse, Decode, Unbroken, Offset, Recognized, EndRecognized, RecordAt, IsGarbage, IsRefused,
         Depth, DepthStep, IsTaken;
    ParseHere(file, pos, Depth(rs, n));
    if !IsGarbage(file, pos, Depth(rs, n)) && !IsRefused(file, pos) && RecordAt(file, pos).Some? {
      var r := RecordAt(file, pos).value;
      var rest := Parse(file, pos + 4 + |r.data|, Depth(rs, n) + DepthStep(r.opcode)).0;
      assert rs[n..] == [r] + rest;
      assert rs[n..][0] == rs[n] && rs[n..][1..] == rs[n + 1..];
      assert LoadableAt(rs, n);
      OffsetNext(rs, n);
      RecordRecognized(file, pos, rs, n);
    } else {
      LastRecognized(file, rs);
    }
  }

  lemma ParseHere(file: seq<Byte>, pos: nat, depth: int)
    requires pos < |file|
    ensures Parse(file, pos, depth) ==
      if IsGarbage(file, pos, depth) then ([], Garbage)
      else if IsRefused(file, pos) then ([], Refusal)
      else
        match RecordAt(file, pos)
        case None => ([], CutShort)
        case Some(r) =>
          var (rest, end) := Parse(file, pos + 4 + |r.data|, depth + DepthStep(r.opcode));
          ([r] + rest, end)
  {
  }

  lemma RecordRecognized(file: seq<Byte>, pos: nat, rs: seq<Record>, n: nat)
    requires pos < |file| && RecordAt(file, pos).Some? && n < |rs| && rs[n] == RecordAt(file, pos).value
    requires pos == Offset(rs, n) && LoadableAt(rs, n)
    ensures Recognized(file, pos, Depth(rs, n))
  {
    hide KindOf, Decode, Depth;
  }

  lemma LastRecognized(file: seq<Byte>, rs: seq<Record>)
    requires Parse(file, 0, 0).0 == rs && EndRecognized(file) && Offset(rs, |rs|) <= |file|
    ensures Recognized(file, Offset(rs, |rs|), Depth(rs, |rs|))
  {
    hide Parse, Recognized, Offset, Depth;
  }
}
