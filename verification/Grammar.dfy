/**
 Where the loader puts the records of a flat stream: ancillary nodes below the node before them, push
 and pop nodes around the children of the node before the push.  The records are numbered in order of
 arrival; this follows the numbering, and the grammar of child lists, over every prefix of a stream.
 */
module Grammar {
  import opened Codecs
  import opened Hierarchy
  import opened Numbering
  import PaletteFile
  import opened Records

  /* Which node a record is put below. */

  /**
   The streams the loader accepts without tripping an assertion: known opcodes, none of them at the last
   byte of a block, payloads that the load functions read to their ends, a first record that is not push,
   pop or ancillary, and no pop without a push.
   */
  ghost predicate Loadable(rs: seq<Record>) {
    && (rs != [] ==> KindOf(rs[0].opcode).Plain?)
    && forall n :: 0 <= n < |rs| ==> LoadableAt(rs, n)
  }

  ghost predicate LoadableAt(rs: seq<Record>, n: nat)
    requires n < |rs|
  {
    && Known(rs[n].opcode) && Unbroken(rs, n) && IsTaken(rs[n])
    && (KindOf(rs[n].opcode).PopNode? ==> Depth(rs, n) > 0)
  }

  /** The payload of a vertex palette is that of some records; that of any other record suits its kind. */
  ghost predicate IsTaken(r: Record) {
    if r.opcode == VERTEX_PALETTE then exists prs :: PaletteFile.PaletteOf(prs, r.data)
    else Taken(r.opcode, r.length, r.data)
  }

  /** The depth of the node of record `n` in the hierarchy. */
  ghost function LevelAt(rs: seq<Record>, n: nat): int
    requires n < |rs|
  {
    match KindOf(rs[n].opcode)
    case PushNode => Depth(rs, n) + 1
    case Ancillary => Depth(rs, n) + 1
    case _ => Depth(rs, n)
  }

  /** How many records start a root of their own. */
  ghost function Roots(rs: seq<Record>, n: nat): nat
    requires n <= |rs|
  {
    if n == 0 then 0
    else Roots(rs, n - 1) + if KindOf(rs[n - 1].opcode).Plain? && Depth(rs, n - 1) == 0 then 1 else 0
  }

  /** How many of the first `n` records have one of some opcodes. */
  ghost function Count(rs: seq<Record>, n: nat, opcodes: set<nat>): nat
    requires n <= |rs|
  {
    if n == 0 then 0 else Count(rs, n - 1, opcodes) + if rs[n - 1].opcode in opcodes then 1 else 0
  }

  const PUSHES: set<nat> := {10, 19, 21, 122}
  const POPS: set<nat> := {11, 20, 22, 123}

  /** The opcodes of the nodes that are put below the node before them, without a push. */
  predicate IsAncillary(opcode: nat) {
    opcode in {12, 31, 32, 33, 40, 41, 42, 43, 44, 45, 46, 47, 48, 49, 50, 51, 52, 53, 60, 64, 65, 66, 67, 74, 76, 77,
               78, 79, 80, 81, 82, 83, 88, 90, 93, 94, 97, 102, 105, 106, 108, 109, 110, 112, 113, 114, 116, 128, 129,
               132, 133}
  }

  lemma {:induction false} DepthInNumbers(rs: seq<Record>, n: nat)
    requires n <= |rs|
    ensures Depth(rs, n) == Count(rs, n, PUSHES) - Count(rs, n, POPS)
  {
    if n > 0 {
      DepthInNumbers(rs, n - 1);
    }
  }

  /** A node is as deep as there are more pushes than pops before it, and one deeper if it is a push or ancillary. */
  lemma LevelInNumbers(rs: seq<Record>, n: nat)
    requires n < |rs|
    ensures LevelAt(rs, n) == Count(rs, n, PUSHES) - Count(rs, n, POPS) +
                              if rs[n].opcode in PUSHES || IsAncillary(rs[n].opcode) then 1 else 0
  {
    DepthInNumbers(rs, n);
    AncillaryInNumbers(rs[n].opcode);
  }

  lemma AncillaryInNumbers(opcode: nat)
    ensures KindOf(opcode).PushNode? <==> opcode in PUSHES
    ensures KindOf(opcode).PopNode? <==> opcode in POPS
    ensures KindOf(opcode).Ancillary? <==> IsAncillary(opcode)
  {
  }

  /** Where in the structure of a child list one is: outside of push and pop, between them, or nowhere. */
  datatype Place = Outside | Inside | Nowhere

  function Follow(p: Place, k: Kind): Place {
    match (p, k)
    case (Outside, Ancillary) => Outside
    case (Outside, PushNode) => Inside
    case (Inside, Plain) => Inside
    case (Inside, PopNode) => Outside
    case _ => Nowhere
  }

  function PlaceAfter(ks: seq<Kind>): Place {
    if ks == [] then Outside else Follow(PlaceAfter(ks[..|ks| - 1]), ks[|ks| - 1])
  }

  function Kinds(ts: seq<Tree>): (ks: seq<Kind>)
    ensures |ks| == |ts| && forall i :: 0 <= i < |ts| ==> ks[i] == ts[i].info.Kind()
  {
    seq(|ts|, i requires 0 <= i < |ts| => ts[i].info.Kind())
  }

  /**
   The grammar of loaded hierarchies: each list of children consists of ancillary nodes and of groups
   `push, plain ..., pop`; ancillary and pop nodes have no children.
   */
  ghost predicate Grammatical(ts: seq<Tree>) {
    forall i :: 0 <= i < |ts| ==>
      && PlaceAfter(Kinds(ts[i].kids)) == Outside
      && (ts[i].kids != [] ==> ts[i].info.Kind() in {PushNode, Plain})
      && Grammatical(ts[i].kids)
  }

  /* The arena of a stream. */

  /** How far along the path the parent of a record of this kind is. */
  function ParentPlace(k: Kind, path: seq<nat>): int {
    match k
    case Ancillary => |path| - 1
    case PushNode => |path| - 1
    case PopNode => |path| - 2
    case Plain => if path == [] then -1 else |path| - 2
  }

  function NextPath(k: Kind, path: seq<nat>, n: nat): seq<nat>
    requires ParentPlace(k, path) >= -1
  {
    var q := ParentPlace(k, path);
    match k
    case Ancillary => path
    case PushNode => path + [n]
    case PopNode => path[..q + 1]
    case Plain => path[..q + 1] + [n]
  }

  /** The kinds of the children of a number. */
  function KidKinds(kids: seq<nat>, rs: seq<Record>): (ks: seq<Kind>)
    requires forall j :: 0 <= j < |kids| ==> kids[j] < |rs|
    ensures |ks| == |kids| && forall j :: 0 <= j < |kids| ==> ks[j] == KindOf(rs[kids[j]].opcode)
  {
    seq(|kids|, j requires 0 <= j < |kids| => KindOf(rs[kids[j]].opcode))
  }

  /** The numbers whose pushes are open: all of the path but its last. */
  function OpenOf(path: seq<nat>): seq<nat> {
    if path == [] then [] else path[..|path| - 1]
  }

  /** What holds of the children of `i` while the path is open: only on the path a group is unfinished. */
  ghost predicate ListOk(a: Arena, path: seq<nat>, rs: seq<Record>, i: nat)
    requires Preordered(a) && a.Count() <= |rs| && i < a.Count()
  {
    assert Spans(a, i);
    && PlaceAfter(KidKinds(a.kids[i], rs)) == (if i in OpenOf(path) then Inside else Outside)
    && (a.kids[i] != [] || i in path ==> KindOf(rs[i].opcode) in {PushNode, Plain})
  }

  /** The arena after the first records of a stream. */
  ghost predicate Follows(a: Arena, path: seq<nat>, rs: seq<Record>) {
    && Preordered(a) && a.Count() <= |rs|
    && (if a.Count() == 0 then path == [] else OnPath(a, path))
    && |path| == (if a.Count() == 0 then 0 else Depth(rs, a.Count()) + 1)
    && (forall i :: 0 <= i < a.Count() ==> ListOk(a, path, rs, i))
    && Leveled(a, path, rs)
  }

  /** The depths are those the stream tells, and while there is one root it is number 0. */
  ghost predicate Leveled(a: Arena, path: seq<nat>, rs: seq<Record>)
    requires Preordered(a) && a.Count() <= |rs| && (path == [] <==> a.Count() == 0)
  {
    && (forall i :: 0 <= i < a.Count() ==> a.dep[i] == LevelAt(rs, i))
    && (a.Count() > 0 ==> Roots(rs, a.Count()) >= 1 && (Roots(rs, a.Count()) == 1 ==> path[0] == 0))
  }

  function NextArena(k: Kind, a: Arena, path: seq<nat>): Arena
    requires OnPath(a, path) || (Preordered(a) && path == [])
    requires -1 <= ParentPlace(k, path)
  {
    var q := ParentPlace(k, path);
    if q < 0 then AddedRoot(a)
    else
      PathBounds(a, path);
      Added(a, path, q)
  }

  /** The next record keeps the numbering a preorder, with a path to it. */
  lemma NextPathOk(k: Kind, a: Arena, path: seq<nat>)
    requires (Preordered(a) && a.Count() == 0 && path == []) || OnPath(a, path)
    requires -1 <= ParentPlace(k, path)
    requires ParentPlace(k, path) == -1 ==> k.Plain?
    ensures Preordered(NextArena(k, a, path)) && OnPath(NextArena(k, a, path), NextPath(k, path, a.Count()))
    ensures NextArena(k, a, path).Count() == a.Count() + 1
  {
    hide Spans, PathStep;
    var q := ParentPlace(k, path);
    if q < 0 {
      AddedRootOk(a);
      assert path[..q + 1] + [a.Count()] == [a.Count()];
    } else {
      PathBounds(a, path);
      AddedOk(a, path, q);
      if q == |path| - 1 {
        assert path[..q + 1] == path;
      }
    }
  }

  /** There is a place for the next record: only a plain one outside of all pushes starts a root. */
  lemma ParentKnown(a: Arena, path: seq<nat>, rs: seq<Record>)
    requires Loadable(rs) && a.Count() < |rs| && (path == [] <==> a.Count() == 0)
    requires |path| == (if a.Count() == 0 then 0 else Depth(rs, a.Count()) + 1)
    ensures var k := KindOf(rs[a.Count()].opcode);
      && -1 <= ParentPlace(k, path) && (ParentPlace(k, path) == -1 <==> k.Plain? && Depth(rs, a.Count()) == 0)
  {
    hide KindOf, Known, IsTaken;
    assert LoadableAt(rs, a.Count());
  }

  lemma DepthAfter(a: Arena, path: seq<nat>, rs: seq<Record>)
    requires a.Count() < |rs| && |path| == (if a.Count() == 0 then 0 else Depth(rs, a.Count()) + 1)
    requires var k := KindOf(rs[a.Count()].opcode);
      && -1 <= ParentPlace(k, path) && (ParentPlace(k, path) == -1 <==> k.Plain? && Depth(rs, a.Count()) == 0)
    ensures |NextPath(KindOf(rs[a.Count()].opcode), path, a.Count())| == Depth(rs, a.Count() + 1) + 1
  {
    hide KindOf;
  }

  lemma PathNotEmpty(a: Arena, path: seq<nat>)
    requires OnPath(a, path)
    ensures path != []
  {
  }

  /** One more record. */
  lemma FollowsStep(a: Arena, path: seq<nat>, rs: seq<Record>)
    requires Loadable(rs) && Follows(a, path, rs) && a.Count() < |rs|
    ensures var k := KindOf(rs[a.Count()].opcode);
      && -1 <= ParentPlace(k, path)
      && (ParentPlace(k, path) == -1 <==> k.Plain? && Depth(rs, a.Count()) == 0)
      && Follows(NextArena(k, a, path), NextPath(k, path, a.Count()), rs)
      && NextArena(k, a, path).Count() == a.Count() + 1
  {
    hide ListOk, Leveled, Spans, PathStep, OnPath, Preordered, NextArena, Loadable, KindOf, Known, Depth;
    var n := a.Count();
    var k := KindOf(rs[n].opcode);
    if n > 0 {
      PathNotEmpty(a, path);
    }
    ParentKnown(a, path, rs);
    NextPathOk(k, a, path);
    var a', path' := NextArena(k, a, path), NextPath(k, path, n);
    LeveledStep(a, path, rs);
    DepthAfter(a, path, rs);
    forall i | 0 <= i < a'.Count()
      ensures ListOk(a', path', rs, i)
    {
      if i == n {
        ListOkNew(a, path, rs);
      } else {
        ListOkOld(a, path, rs, i);
      }
    }
  }

  lemma LeveledStep(a: Arena, path: seq<nat>, rs: seq<Record>)
    requires Loadable(rs) && Follows(a, path, rs) && a.Count() < |rs|
    requires var k := KindOf(rs[a.Count()].opcode);
      && -1 <= ParentPlace(k, path) && (ParentPlace(k, path) == -1 <==> k.Plain? && Depth(rs, a.Count()) == 0)
      && Preordered(NextArena(k, a, path)) && NextArena(k, a, path).Count() == a.Count() + 1
      && NextPath(k, path, a.Count()) != []
    ensures var k := KindOf(rs[a.Count()].opcode);
      Leveled(NextArena(k, a, path), NextPath(k, path, a.Count()), rs)
  {
    hide ListOk, Spans, KindOf, Known, Loadable, Roots, Depth, LevelAt;
    var n := a.Count();
    var k := KindOf(rs[n].opcode);
    NextLevel(a, path, rs);
    assert forall i :: 0 <= i < n ==> NextArena(k, a, path).dep[i] == a.dep[i];
    hide NextArena, Added, OnPath;
    NextRoots(rs, n);
  }

  lemma NextLevel(a: Arena, path: seq<nat>, rs: seq<Record>)
    requires a.Count() < |rs| && |path| == (if a.Count() == 0 then 0 else Depth(rs, a.Count()) + 1)
    requires OnPath(a, path) || (Preordered(a) && path == [])
    requires var k := KindOf(rs[a.Count()].opcode);
      && -1 <= ParentPlace(k, path) && (ParentPlace(k, path) == -1 <==> k.Plain? && Depth(rs, a.Count()) == 0)
    requires path == [] ==> a.Count() == 0
    ensures var r := NextArena(KindOf(rs[a.Count()].opcode), a, path);
      |r.dep| == a.Count() + 1 && r.dep[a.Count()] == LevelAt(rs, a.Count())
  {
    hide KindOf, Depth, Spans;
    var q := ParentPlace(KindOf(rs[a.Count()].opcode), path);
    if q >= 0 {
      assert PathStep(a, path, q);
    }
  }

  lemma NextRoots(rs: seq<Record>, n: nat)
    requires n < |rs|
    ensures Roots(rs, n + 1) == Roots(rs, n) + if KindOf(rs[n].opcode).Plain? && Depth(rs, n) == 0 then 1 else 0
    ensures Roots(rs, 0) == 0
  {
  }

  lemma ListOkNew(a: Arena, path: seq<nat>, rs: seq<Record>)
    requires Loadable(rs) && Follows(a, path, rs) && a.Count() < |rs|
    requires var k := KindOf(rs[a.Count()].opcode);
      -1 <= ParentPlace(k, path) && Preordered(NextArena(k, a, path))
    ensures var k := KindOf(rs[a.Count()].opcode);
      ListOk(NextArena(k, a, path), NextPath(k, path, a.Count()), rs, a.Count())
  {
    var n := a.Count();
    var k := KindOf(rs[n].opcode);
    var path' := NextPath(k, path, n);
    if path != [] {
      PathBounds(a, path);
    }
    assert n !in path;
    assert path' != [] ==> n !in path'[..|path'| - 1];
  }

  /** Which nodes are inside an open push, before and after. */
  lemma InsideNext(k: Kind, path: seq<nat>, n: nat, i: nat)
    requires path != [] && 0 <= ParentPlace(k, path) && i != n
    requires forall l, m :: 0 <= l < m < |path| ==> path[l] != path[m]
    ensures var q := ParentPlace(k, path);
      var path' := NextPath(k, path, n);
      && path' != []
      && (i in path' ==> i in path)
      && (i != path[q] ==> (i in path'[..|path'| - 1] <==> i in path[..|path| - 1]))
      && (path[q] in path'[..|path'| - 1] <==> k.Plain? || k.PushNode?)
      && (path[q] in path[..|path| - 1] <==> k.Plain? || k.PopNode?)
      && path[q] in path
  {
    var q := ParentPlace(k, path);
    var path' := NextPath(k, path, n);
    var front := path[..q];
    assert path[q] !in front;
    assert path[..q + 1] == front + [path[q]];
    match k
    case Ancillary =>
      assert path'[..|path'| - 1] == front == path[..|path| - 1];
    case PushNode =>
      assert path'[..|path'| - 1] == path == front + [path[q]];
      assert path[..|path| - 1] == front;
    case PopNode =>
      assert path'[..|path'| - 1] == front;
      assert path[..|path| - 1] == front + [path[q]];
    case Plain =>
      assert path'[..|path'| - 1] == front + [path[q]] == path[..|path| - 1];
  }

  lemma KidKindsGrow(kids: seq<nat>, n: nat, rs: seq<Record>)
    requires n < |rs| && forall j :: 0 <= j < |kids| ==> kids[j] < |rs|
    ensures PlaceAfter(KidKinds(kids + [n], rs)) == Follow(PlaceAfter(KidKinds(kids, rs)), KindOf(rs[n].opcode))
  {
    hide KindOf, Follow;
    var ks := KidKinds(kids + [n], rs);
    assert ks[..|ks| - 1] == KidKinds(kids, rs);
    assert ks[|ks| - 1] == KindOf(rs[n].opcode);
  }

  lemma ListOkOld(a: Arena, path: seq<nat>, rs: seq<Record>, i: nat)
    requires Loadable(rs) && Follows(a, path, rs) && i < a.Count() < |rs|
    requires var k := KindOf(rs[a.Count()].opcode);
      -1 <= ParentPlace(k, path) && Preordered(NextArena(k, a, path))
    ensures var k := KindOf(rs[a.Count()].opcode);
      ListOk(NextArena(k, a, path), NextPath(k, path, a.Count()), rs, i)
  {
    var n := a.Count();
    var k := KindOf(rs[n].opcode);
    var q := ParentPlace(k, path);
    var a', path' := NextArena(k, a, path), NextPath(k, path, n);
    SpansAt(a, i);
    SpansAt(a', i);
    assert forall j :: 0 <= j < |a.kids[i]| ==> a.kids[i][j] < n;
    hide KindOf, Known, Spans, Loadable, EachSpans, Leveled, PlaceAfter;
    assert ListOk(a, path, rs, i);
    if q >= 0 {
      PathAllDistinct(a, path);
      PathBounds(a, path);
      hide OnPath, ListOk, KidKinds;
      InsideNext(k, path, n, i);
      if i == path[q] {
        ListOkParent(a, a', path, path', rs, i, k);
      } else {
        ListOkSame(a, a', path, path', rs, i);
      }
    } else {
      ListOkSame(a, a', path, path', rs, i);
    }
  }

  lemma ListOkSame(a: Arena, a': Arena, path: seq<nat>, path': seq<nat>, rs: seq<Record>, i: nat)
    requires Preordered(a) && a.Count() <= |rs| && i < a.Count() && ListOk(a, path, rs, i)
    requires Preordered(a') && a.Count() <= a'.Count() <= |rs| && a'.kids[i] == a.kids[i]
    requires i in OpenOf(path) <==> i in OpenOf(path')
    requires i in path' ==> i in path
    ensures ListOk(a', path', rs, i)
  {
    hide KindOf, PlaceAfter;
    SpansAt(a, i);
  }

  lemma ListOkParent(a: Arena, a': Arena, path: seq<nat>, path': seq<nat>, rs: seq<Record>, i: nat, k: Kind)
    requires Preordered(a) && i < a.Count() < |rs| && ListOk(a, path, rs, i)
    requires Preordered(a') && a'.Count() == a.Count() + 1 && a'.kids[i] == a.kids[i] + [a.Count()]
    requires k == KindOf(rs[a.Count()].opcode) && i in path
    requires i in OpenOf(path) <==> k.Plain? || k.PopNode?
    requires i in OpenOf(path') <==> k.Plain? || k.PushNode?
    ensures ListOk(a', path', rs, i)
  {
    hide KindOf, PlaceAfter;
    SpansAt(a, i);
    KidKindsGrow(a.kids[i], a.Count(), rs);
  }

  lemma PathAllDistinct(a: Arena, path: seq<nat>)
    requires OnPath(a, path)
    ensures forall l, m :: 0 <= l < m < |path| ==> path[l] != path[m]
  {
    forall l, m | 0 <= l < m < |path|
      ensures path[l] != path[m]
    {
      assert PathStep(a, path, l) && PathStep(a, path, m);
    }
  }

  /** A record opens or closes at most the number it is put below. */
  lemma OpenNext(k: Kind, a: Arena, path: seq<nat>)
    requires OnPath(a, path) && ParentPlace(k, path) >= 0
    ensures var q := ParentPlace(k, path);
      var open, open' := OpenOf(path), OpenOf(NextPath(k, path, a.Count()));
      && (forall i :: 0 <= i < a.Count() && i != path[q] ==> (i in open <==> i in open'))
      && (path[q] in open' <==> k.Plain? || k.PushNode?)
      && a.Count() !in open'
  {
    PathAllDistinct(a, path);
    PathBounds(a, path);
    hide OnPath;
    var q := ParentPlace(k, path);
    InsideNext(k, path, a.Count(), path[q]);
    forall i | 0 <= i < a.Count() && i != path[q]
      ensures i in OpenOf(path) <==> i in OpenOf(NextPath(k, path, a.Count()))
    {
      InsideNext(k, path, a.Count(), i);
    }
  }
}
